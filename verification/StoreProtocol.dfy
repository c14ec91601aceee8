/** Every interleaving of the critical sections of the document store. */
module StoreProtocol {
  import opened Coordinates
  import opened Syntax
  import opened WorkspaceScan
  import opened DocumentStore

  // ----- Runs -----

  datatype Purpose = Edit(change: OriginChange) | Disk(checked: bool)

  /** A reservation in flight, with its parsed snapshot; `seen` is the path as
      the reservation left it, kept only to state what other steps may not do. */
  datatype Task<I> = Task(snapshot: Snapshot<I>, purpose: Purpose, seen: View<I>)

  /** What the client receives about a path: a document's diagnostics, or their
      clearing by a close that had bumped the revision to `revision`. */
  datatype Message<I> = Published(snapshot: Snapshot<I>) | Cleared(path: Path, revision: nat)

  datatype Closing = Closing(path: Path, revision: nat)

  /** `sending` holds the snapshot that passed the publication check while the
      publication lock is held. */
  datatype System<I(==)> = System(
    views: map<Path, View<I>>, roots: set<Path>,
    tasks: set<Task<I>>, pending: set<Snapshot<I>>, sending: Option<Snapshot<I>>,
    closing: set<Closing>, log: seq<Message<I>>)

  /** One critical section, with everything it does not decide itself. */
  datatype Label<I> =
    | ReserveEdit(path: Path, text: string, version: int, change: OriginChange)
    | ReserveDisk(path: Path, text: string)
    | Recheck(task: Task<I>)
    | InstallTask(task: Task<I>)
    | CheckPublication(snapshot: Snapshot<I>)
    | Send(delivered: bool)
    | CloseDocument(path: Path)
    | FailRestore(path: Path)
    | ClearDiagnostics(closed: Closing, delivered: bool)
    | DeleteFile(path: Path)
    | AddFolder(root: Path)
    | DeleteFolder(root: Path)

  ghost function At<I(!new)>(views: map<Path, View<I>>, path: Path): View<I> {
    if path in views then views[path] else Blank()
  }

  ghost function Initial<I(!new)>(): System<I> {
    System(map[], {}, {}, {}, None, {}, [])
  }

  /** Whether a task may go on to install: a disk store only after its recheck. */
  ghost predicate ReadyToInstall<I(!new)>(t: Task<I>) {
    t.purpose.Edit? || t.purpose.checked
  }

  ghost function ReserveStep<I(!new)>(parser: Parser<I>, s: System<I>, path: Path, text: string, version: int,
                                      purpose: Purpose): System<I> {
    var v := At(s.views, path);
    var v' := Reserve(v);
    var origin := if purpose.Edit? then Change(DocumentOrigin(v), purpose.change) else Origin(false, true);
    var snapshot := ParseSnapshot(parser, path, text, version, v'.revision, origin);
    s.(views := s.views[path := v'], tasks := s.tasks + {Task(snapshot, purpose, v')})
  }

  ghost function InstallStep<I(!new)>(s: System<I>, t: Task<I>): System<I> {
    var path := t.snapshot.path;
    if Installable(At(s.views, path), t.snapshot)
    then s.(views := s.views[path := Install(At(s.views, path), t.snapshot)], tasks := s.tasks - {t},
            pending := if t.purpose.Edit? then s.pending + {t.snapshot} else s.pending)
    else s.(tasks := s.tasks - {t})
  }

  /** The effect of one critical section; one that is not enabled does nothing. */
  ghost function Next<I(!new)>(parser: Parser<I>, s: System<I>, l: Label<I>): System<I> {
    match l
    case ReserveEdit(path, text, version, change) => ReserveStep(parser, s, path, text, version, Edit(change))
    case ReserveDisk(path, text) =>
      if At(s.views, path).open then s else ReserveStep(parser, s, path, text, 0, Disk(false))
    case Recheck(t) =>
      if t in s.tasks && t.purpose == Disk(false) then
        var v := At(s.views, t.snapshot.path);
        if v.revision == t.snapshot.revision && !v.open
        then s.(tasks := s.tasks - {t} + {t.(purpose := Disk(true))})
        else s.(tasks := s.tasks - {t})
      else s
    case InstallTask(t) => if t in s.tasks && ReadyToInstall(t) then InstallStep(s, t) else s
    case CheckPublication(snapshot) =>
      if snapshot in s.pending && s.sending.None? then
        if At(s.views, snapshot.path).doc == Some(snapshot)
        then s.(pending := s.pending - {snapshot}, sending := Some(snapshot))
        else s.(pending := s.pending - {snapshot})
      else s
    case Send(delivered) =>
      if s.sending.Some?
      then s.(sending := None, log := if delivered then s.log + [Published(s.sending.value)] else s.log)
      else s
    case CloseDocument(path) =>
      var v := Close(At(s.views, path));
      s.(views := s.views[path := v], closing := s.closing + {Closing(path, v.revision)})
    case FailRestore(path) => s.(views := s.views[path := RestoreFailed(At(s.views, path))])
    case ClearDiagnostics(c, delivered) =>
      if c in s.closing && s.sending.None?
      then s.(closing := s.closing - {c}, log := if delivered then s.log + [Cleared(c.path, c.revision)] else s.log)
      else s
    case DeleteFile(path) => s.(views := s.views[path := RemoveFile(At(s.views, path))])
    case AddFolder(root) => s.(roots := s.roots + {root})
    case DeleteFolder(root) =>
      var roots := s.roots - {root};
      s.(roots := roots, views := map p | p in s.views :: RemoveFolder(s.views[p], p, roots))
  }

  /** The state after a run. */
  ghost function Exec<I(!new)>(parser: Parser<I>, run: seq<Label<I>>): System<I> {
    if run == [] then Initial() else Next(parser, Exec(parser, run[..|run| - 1]), run[|run| - 1])
  }

  // ----- The handler takes these steps -----

  ghost predicate Mirrors<I(!new)>(h: Handler<I>, parser: Parser<I>, s: System<I>)
    reads h
  {
    h.parser == parser && h.workspaceRootMap == s.roots && forall p :: h.ViewOf(p) == At(s.views, p)
  }

  /** The critical section of a label, run on the maps of the handler, takes
      them where the protocol goes. */
  method Perform<I(!new)>(h: Handler<I>, ghost parser: Parser<I>, ghost s: System<I>, l: Label<I>)
    requires Mirrors(h, parser, s)
    requires l.InstallTask? ==> l.task in s.tasks && ReadyToInstall(l.task)
    modifies h
    ensures Mirrors(h, parser, Next(parser, s, l))
  {
    if l.ReserveEdit? || l.ReserveDisk? || l.Recheck? || l.InstallTask? {
      PerformUpdate(h, parser, s, l);
    } else {
      PerformRemoval(h, parser, s, l);
    }
  }

  method PerformUpdate<I(!new)>(h: Handler<I>, ghost parser: Parser<I>, ghost s: System<I>, l: Label<I>)
    requires Mirrors(h, parser, s) && (l.ReserveEdit? || l.ReserveDisk? || l.Recheck? || l.InstallTask?)
    requires l.InstallTask? ==> l.task in s.tasks && ReadyToInstall(l.task)
    modifies h
    ensures Mirrors(h, parser, Next(parser, s, l))
  {
    match l
    case ReserveEdit(path, _, _, change) => var _, _ := h.ReserveDocumentUpdate(path, change);
    case ReserveDisk(path, _) => var _, _ := h.StoreWorkspaceReserve(path);
    case Recheck(t) => var _ := h.StoreWorkspaceRecheck(t.snapshot.path, t.snapshot.revision);
    case InstallTask(t) => var _ := h.InstallDocumentSnapshot(t.snapshot);
  }

  method PerformRemoval<I(!new)>(h: Handler<I>, ghost parser: Parser<I>, ghost s: System<I>, l: Label<I>)
    requires Mirrors(h, parser, s) && !(l.ReserveEdit? || l.ReserveDisk? || l.Recheck? || l.InstallTask?)
    modifies h
    ensures Mirrors(h, parser, Next(parser, s, l))
  {
    if l.AddFolder? || l.DeleteFolder? {
      PerformFolder(h, parser, s, l);
      return;
    }
    match l
    case CloseDocument(path) => var _ := h.DidClose(path);
    case FailRestore(path) => h.RestoreWorkspaceFileFailed(path);
    case DeleteFile(path) => h.RemoveWorkspaceFile(path);
    case CheckPublication(_) | Send(_) | ClearDiagnostics(_, _) =>
  }

  method PerformFolder<I(!new)>(h: Handler<I>, ghost parser: Parser<I>, ghost s: System<I>, l: Label<I>)
    requires Mirrors(h, parser, s) && (l.AddFolder? || l.DeleteFolder?)
    modifies h
    ensures Mirrors(h, parser, Next(parser, s, l))
  {
    match l
    case AddFolder(root) => h.AddWorkspaceRoot(root);
    case DeleteFolder(root) => h.RemoveWorkspaceFolder(root);
  }

  // ----- The store invariant -----

  /** What the maps say about one path never drifts apart. */
  ghost predicate Coherent<I(!new)>(parser: Parser<I>, path: Path, v: View<I>) {
    && (v.doc.Some? <==> v.content.Some?) && (v.doc.Some? <==> v.parse.Some?)
    && (v.workspace ==> v.doc.Some?)
    && (v.doc.Some? ==>
          var d := v.doc.value;
          && d.path == path && v.content == Some(d.text) && v.parse == Some(d.statements)
          && d == ParseSnapshot(parser, path, d.text, d.version, d.revision, d.origin)
          && d.origin == Origin(v.open, v.workspace)
          && d.revision <= v.revision)
  }

  /** A reservation whose revision is still current finds its path untouched. */
  ghost predicate Undisturbed<I(!new)>(parser: Parser<I>, v: View<I>, t: Task<I>) {
    var s := t.snapshot;
    && s == ParseSnapshot(parser, s.path, s.text, s.version, s.revision, s.origin)
    && Coherent(parser, s.path, t.seen) && t.seen.revision == s.revision
    && (t.seen.doc.Some? ==> t.seen.doc.value.revision < s.revision)
    && s.origin == (if t.purpose.Edit? then Change(DocumentOrigin(t.seen), t.purpose.change) else Origin(false, true))
    && (t.purpose.Disk? ==> !t.seen.open && s.version == 0)
    && s.revision <= v.revision
    && (s.revision == v.revision ==> v == t.seen)
  }

  ghost predicate StoreOk<I(!new)>(parser: Parser<I>, views: map<Path, View<I>>) {
    forall p :: Coherent(parser, p, At(views, p))
  }

  ghost predicate TasksOk<I(!new)>(parser: Parser<I>, views: map<Path, View<I>>, tasks: set<Task<I>>) {
    forall t :: t in tasks ==> Undisturbed(parser, At(views, t.snapshot.path), t)
  }

  lemma DocumentOriginIs<I(!new)>(parser: Parser<I>, path: Path, v: View<I>)
    requires Coherent(parser, path, v)
    ensures DocumentOrigin(v) == Origin(v.open, v.workspace)
  {
  }

  /** Every operation on a path keeps it coherent. */
  lemma OperationsKeepCoherent<I(!new)>(parser: Parser<I>, path: Path, v: View<I>, roots: set<Path>)
    requires Coherent(parser, path, v)
    ensures Coherent(parser, path, Reserve(v)) && Coherent(parser, path, Close(v))
    ensures Coherent(parser, path, RestoreFailed(v)) && Coherent(parser, path, RemoveFile(v))
    ensures Coherent(parser, path, RemoveFolder(v, path, roots))
  {
  }

  /** The install of an undisturbed reservation is never refused by the
      workspace-over-open guard. */
  lemma GuardNeverRejects<I(!new)>(parser: Parser<I>, v: View<I>, t: Task<I>)
    requires Undisturbed(parser, v, t)
    ensures Installable(v, t.snapshot) <==> v.revision == t.snapshot.revision
    ensures Installable(v, t.snapshot) ==> Coherent(parser, t.snapshot.path, Install(v, t.snapshot)) && v == t.seen
    ensures Installable(v, t.snapshot) && t.purpose.Disk? ==> !v.open
  {
    DocumentOriginIs(parser, t.snapshot.path, t.seen);
  }

  // ----- Tickets: one reservation, one revision -----

  datatype Ticket = Ticket(path: Path, revision: nat)

  ghost function TicketOf<I>(s: Snapshot<I>): Ticket {
    Ticket(s.path, s.revision)
  }

  ghost predicate TasksDistinct<I(!new)>(tasks: set<Task<I>>) {
    forall t, u | t in tasks && u in tasks :: TicketOf(t.snapshot) == TicketOf(u.snapshot) ==> t == u
  }

  ghost predicate StoreInv<I(!new)>(parser: Parser<I>, s: System<I>) {
    StoreOk(parser, s.views) && TasksOk(parser, s.views, s.tasks) && TasksDistinct(s.tasks)
  }

  /** A step on one path either leaves it alone or moves its revision on. */
  ghost predicate Advances<I(!new)>(v: View<I>, v': View<I>) {
    v' == v || v.revision < v'.revision
  }

  lemma PathStep<I(!new)>(parser: Parser<I>, views: map<Path, View<I>>, tasks: set<Task<I>>, path: Path, v': View<I>)
    requires StoreOk(parser, views) && TasksOk(parser, views, tasks)
    requires Coherent(parser, path, v') && Advances(At(views, path), v')
    ensures StoreOk(parser, views[path := v']) && TasksOk(parser, views[path := v'], tasks)
  {
    var views' := views[path := v'];
    forall p ensures Coherent(parser, p, At(views', p)) {
      assert Coherent(parser, p, At(views, p));
    }
    forall t | t in tasks ensures Undisturbed(parser, At(views', t.snapshot.path), t) {
      assert Undisturbed(parser, At(views, t.snapshot.path), t);
    }
  }

  lemma FolderStep<I(!new)>(parser: Parser<I>, views: map<Path, View<I>>, tasks: set<Task<I>>, roots: set<Path>)
    requires StoreOk(parser, views) && TasksOk(parser, views, tasks)
    ensures var views' := map p | p in views :: RemoveFolder(views[p], p, roots);
            StoreOk(parser, views') && TasksOk(parser, views', tasks)
  {
    var views' := map p | p in views :: RemoveFolder(views[p], p, roots);
    forall p ensures Coherent(parser, p, At(views', p)) {
      OperationsKeepCoherent(parser, p, At(views, p), roots);
    }
    forall t | t in tasks ensures Undisturbed(parser, At(views', t.snapshot.path), t) {
      assert Undisturbed(parser, At(views, t.snapshot.path), t);
    }
  }

  lemma ReserveKeeps<I(!new)>(parser: Parser<I>, s: System<I>, path: Path, text: string, version: int, purpose: Purpose)
    requires StoreInv(parser, s) && (purpose.Disk? ==> !At(s.views, path).open && version == 0)
    ensures StoreInv(parser, ReserveStep(parser, s, path, text, version, purpose))
  {
    var v := At(s.views, path);
    var s' := ReserveStep(parser, s, path, text, version, purpose);
    OperationsKeepCoherent(parser, path, v, {});
    PathStep(parser, s.views, s.tasks, path, Reserve(v));
    forall t | t in s.tasks ensures TicketOf(t.snapshot) != Ticket(path, v.revision + 1) {
      assert Undisturbed(parser, At(s.views, t.snapshot.path), t);
    }
  }

  lemma InstallKeeps<I(!new)>(parser: Parser<I>, s: System<I>, t: Task<I>)
    requires StoreInv(parser, s) && t in s.tasks
    ensures StoreInv(parser, InstallStep(s, t))
  {
    var path := t.snapshot.path;
    var v := At(s.views, path);
    var s' := InstallStep(s, t);
    assert Undisturbed(parser, v, t);
    GuardNeverRejects(parser, v, t);
    forall u | u in s'.tasks ensures Undisturbed(parser, At(s'.views, u.snapshot.path), u) {
      assert Undisturbed(parser, At(s.views, u.snapshot.path), u);
      assert TicketOf(u.snapshot) != TicketOf(t.snapshot);
    }
    forall p ensures Coherent(parser, p, At(s'.views, p)) {
      assert Coherent(parser, p, At(s.views, p));
    }
  }

  lemma NextKeepsStore<I(!new)>(parser: Parser<I>, s: System<I>, l: Label<I>)
    requires StoreInv(parser, s)
    ensures StoreInv(parser, Next(parser, s, l))
  {
    match l
    case ReserveEdit(path, text, version, change) => ReserveKeeps(parser, s, path, text, version, Edit(change));
    case ReserveDisk(path, text) =>
      if !At(s.views, path).open { ReserveKeeps(parser, s, path, text, 0, Disk(false)); }
    case Recheck(t) => RecheckKeeps(parser, s, t);
    case InstallTask(t) => if t in s.tasks { InstallKeeps(parser, s, t); }
    case _ => RemovalKeepsStore(parser, s, l);
  }

  lemma RemovalKeepsStore<I(!new)>(parser: Parser<I>, s: System<I>, l: Label<I>)
    requires StoreInv(parser, s) && !(l.ReserveEdit? || l.ReserveDisk? || l.Recheck? || l.InstallTask?)
    ensures StoreInv(parser, Next(parser, s, l))
  {
    match l
    case CloseDocument(path) =>
      OperationsKeepCoherent(parser, path, At(s.views, path), {});
      PathStep(parser, s.views, s.tasks, path, Close(At(s.views, path)));
    case FailRestore(path) =>
      OperationsKeepCoherent(parser, path, At(s.views, path), {});
      PathStep(parser, s.views, s.tasks, path, RestoreFailed(At(s.views, path)));
    case DeleteFile(path) =>
      OperationsKeepCoherent(parser, path, At(s.views, path), {});
      PathStep(parser, s.views, s.tasks, path, RemoveFile(At(s.views, path)));
    case DeleteFolder(root) => FolderStep(parser, s.views, s.tasks, s.roots - {root});
    case _ =>
  }

  lemma RecheckKeeps<I(!new)>(parser: Parser<I>, s: System<I>, t: Task<I>)
    requires StoreInv(parser, s)
    ensures StoreInv(parser, Next(parser, s, Recheck(t)))
  {
    if t in s.tasks {
      var u := t.(purpose := Disk(true));
      assert Undisturbed(parser, At(s.views, t.snapshot.path), t);
      forall x | x in s.tasks && x != t ensures TicketOf(x.snapshot) != TicketOf(t.snapshot) {
      }
    }
  }

  /** The store invariant holds in every state of every run. */
  lemma {:induction false} StoreInvariant<I(!new)>(parser: Parser<I>, run: seq<Label<I>>)
    ensures StoreInv(parser, Exec(parser, run))
  {
    if run != [] {
      StoreInvariant(parser, run[..|run| - 1]);
      NextKeepsStore(parser, Exec(parser, run[..|run| - 1]), run[|run| - 1]);
    }
  }

  // ----- Serializability -----

  /** Optimistic concurrency control is exact: in every reachable state a
      reservation in flight installs if and only if the path's revision is still
      its own, and then nothing on that path has changed since it was made. A
      file read from disk never replaces a document that is open. */
  lemma InstallSucceedsIff<I(!new)>(parser: Parser<I>, run: seq<Label<I>>, t: Task<I>)
    requires t in Exec(parser, run).tasks
    ensures var v := At(Exec(parser, run).views, t.snapshot.path);
            && (Installable(v, t.snapshot) <==> v.revision == t.snapshot.revision)
            && (Installable(v, t.snapshot) ==> v == t.seen && (t.purpose.Disk? ==> !v.open))
  {
    StoreInvariant(parser, run);
    GuardNeverRejects(parser, At(Exec(parser, run).views, t.snapshot.path), t);
  }

  /** The handler with every update done in one piece, without revisions. */
  datatype Op =
    | AtomicEdit(path: Path, text: string, version: int, change: OriginChange)
    | AtomicStore(path: Path, text: string)
    | AtomicClose(path: Path)
    | AtomicFailRestore(path: Path)
    | AtomicDelete(path: Path)
    | AtomicDeleteFolder(roots: set<Path>)

  /** A view without its revisions. */
  ghost function Erase<I>(v: View<I>): View<I> {
    v.(revision := 0, doc := if v.doc.Some? then Some(v.doc.value.(revision := 0)) else None)
  }

  ghost function Apply<I>(parser: Parser<I>, v: View<I>, path: Path, op: Op): View<I> {
    match op
    case AtomicEdit(p, text, version, change) =>
      if p == path then Install(v, ParseSnapshot(parser, p, text, version, 0, Change(DocumentOrigin(v), change))) else v
    case AtomicStore(p, text) =>
      if p == path && !v.open then Install(v, ParseSnapshot(parser, p, text, 0, 0, Origin(false, true))) else v
    case AtomicClose(p) => if p == path then Erase(Close(v)) else v
    case AtomicFailRestore(p) => if p == path then Erase(RestoreFailed(v)) else v
    case AtomicDelete(p) => if p == path then Erase(RemoveFile(v)) else v
    case AtomicDeleteFolder(roots) => Erase(RemoveFolder(v, path, roots))
  }

  /** One path after a sequence of atomic operations. */
  ghost function Serial<I>(parser: Parser<I>, ops: seq<Op>, path: Path): View<I> {
    if ops == [] then Blank() else Apply(parser, Serial(parser, ops[..|ops| - 1], path), path, ops[|ops| - 1])
  }

  /** The atomic operation that a step completes, if any. An update counts at the
      moment its install succeeds. */
  ghost function OpsOf<I(!new)>(s: System<I>, l: Label<I>): seq<Op> {
    match l
    case InstallTask(t) =>
      if t in s.tasks && ReadyToInstall(t) && Installable(At(s.views, t.snapshot.path), t.snapshot) then
        [if t.purpose.Edit? then AtomicEdit(t.snapshot.path, t.snapshot.text, t.snapshot.version, t.purpose.change)
         else AtomicStore(t.snapshot.path, t.snapshot.text)]
      else []
    case CloseDocument(path) => [AtomicClose(path)]
    case FailRestore(path) => [AtomicFailRestore(path)]
    case DeleteFile(path) => [AtomicDelete(path)]
    case DeleteFolder(root) => [AtomicDeleteFolder(s.roots - {root})]
    case _ => []
  }

  ghost function OpsOfRun<I(!new)>(parser: Parser<I>, run: seq<Label<I>>): seq<Op> {
    if run == [] then [] else OpsOfRun(parser, run[..|run| - 1]) + OpsOf(Exec(parser, run[..|run| - 1]), run[|run| - 1])
  }

  lemma EraseCommutes<I(!new)>(v: View<I>, path: Path, roots: set<Path>)
    ensures Erase(Close(v)) == Erase(Close(Erase(v))) && Erase(RestoreFailed(v)) == Erase(RestoreFailed(Erase(v)))
    ensures Erase(RemoveFile(v)) == Erase(RemoveFile(Erase(v)))
    ensures Erase(RemoveFolder(v, path, roots)) == Erase(RemoveFolder(Erase(v), path, roots))
    ensures Erase(Reserve(v)) == Erase(v) && DocumentOrigin(Erase(v)) == DocumentOrigin(v)
  {
  }

  lemma InstallIsAtomic<I(!new)>(parser: Parser<I>, s: System<I>, t: Task<I>)
    requires StoreInv(parser, s) && t in s.tasks && ReadyToInstall(t) &&
             Installable(At(s.views, t.snapshot.path), t.snapshot)
    ensures Erase(At(InstallStep(s, t).views, t.snapshot.path)) ==
            Apply(parser, Erase(At(s.views, t.snapshot.path)), t.snapshot.path, OpsOf(s, InstallTask(t))[0])
  {
    var v := At(s.views, t.snapshot.path);
    assert Undisturbed(parser, v, t);
    GuardNeverRejects(parser, v, t);
    EraseCommutes(v, t.snapshot.path, {});
  }

  /** Each step does to every path exactly what its atomic operation does. */
  lemma NextIsSerial<I(!new)>(parser: Parser<I>, s: System<I>, l: Label<I>, path: Path)
    requires StoreInv(parser, s)
    ensures |OpsOf(s, l)| <= 1
    ensures Erase(At(Next(parser, s, l).views, path)) ==
            if OpsOf(s, l) == [] then Erase(At(s.views, path))
               else Apply(parser, Erase(At(s.views, path)), path, OpsOf(s, l)[0])
  {
    if l.ReserveEdit? || l.ReserveDisk? || l.Recheck? || l.InstallTask? {
      UpdateIsSerial(parser, s, l, path);
    } else {
      RemovalIsSerial(parser, s, l, path);
    }
  }

  lemma UpdateIsSerial<I(!new)>(parser: Parser<I>, s: System<I>, l: Label<I>, path: Path)
    requires l.ReserveEdit? || l.ReserveDisk? || l.Recheck? || l.InstallTask?
    requires StoreInv(parser, s)
    ensures |OpsOf(s, l)| <= 1
    ensures Erase(At(Next(parser, s, l).views, path)) ==
            if OpsOf(s, l) == [] then Erase(At(s.views, path))
               else Apply(parser, Erase(At(s.views, path)), path, OpsOf(s, l)[0])
  {
    hide StoreOk, TasksOk, TasksDistinct, Coherent, Installable;
    var v := At(s.views, path);
    match l
    case ReserveEdit(_, _, _, _) => EraseCommutes(v, path, {});
    case ReserveDisk(_, _) => EraseCommutes(v, path, {});
    case InstallTask(t) =>
      if OpsOf(s, l) != [] { InstallIsAtomic(parser, s, t); }
    case _ =>
  }

  lemma RemovalIsSerial<I(!new)>(parser: Parser<I>, s: System<I>, l: Label<I>, path: Path)
    requires !(l.ReserveEdit? || l.ReserveDisk? || l.Recheck? || l.InstallTask?)
    requires StoreInv(parser, s)
    ensures |OpsOf(s, l)| <= 1
    ensures Erase(At(Next(parser, s, l).views, path)) ==
            if OpsOf(s, l) == [] then Erase(At(s.views, path))
               else Apply(parser, Erase(At(s.views, path)), path, OpsOf(s, l)[0])
  {
    hide StoreOk, TasksOk, TasksDistinct, Coherent, Installable;
    var v := At(s.views, path);
    match l
    case CloseDocument(_) => EraseCommutes(v, path, {});
    case FailRestore(_) => EraseCommutes(v, path, {});
    case DeleteFile(_) => EraseCommutes(v, path, {});
    case DeleteFolder(root) => EraseCommutes(v, path, s.roots - {root});
    case _ =>
  }

  /** Serializability: whatever the interleaving of reservations, parses, rechecks
      and installs, every path ends up as if each update that took effect had
      been done in one piece at the moment of its install, in that order, and
      each update that did not had never been attempted. */
  lemma {:induction false} Serializability<I(!new)>(parser: Parser<I>, run: seq<Label<I>>, path: Path)
    ensures Erase(At(Exec(parser, run).views, path)) == Serial(parser, OpsOfRun(parser, run), path)
  {
    hide Apply, Next, OpsOf, StoreOk, TasksOk, TasksDistinct;
    if run != [] {
      var init, l := run[..|run| - 1], run[|run| - 1];
      Serializability(parser, init, path);
      StoreInvariant(parser, init);
      NextIsSerial(parser, Exec(parser, init), l, path);
      var ops, more := OpsOfRun(parser, init), OpsOf(Exec(parser, init), l);
      if more == [] {
        assert ops + more == ops;
      } else {
        assert ops + more == ops + [more[0]];
        assert (ops + more)[..|ops + more| - 1] == ops;
      }
    }
  }

  lemma {:induction false} RevisionsGrow<I(!new)>(parser: Parser<I>, run: seq<Label<I>>, more: seq<Label<I>>,
      path: Path)
    ensures At(Exec(parser, run).views, path).revision <= At(Exec(parser, run + more).views, path).revision
  {
    if more == [] {
      assert run + more == run;
    } else {
      var init := run + more[..|more| - 1];
      assert (run + more)[..|run + more| - 1] == init;
      RevisionsGrow(parser, run, more[..|more| - 1], path);
      NextOnward(parser, Exec(parser, init), (run + more)[|run + more| - 1], path);
    }
  }

  /** The recheck of a disk store gives up only reservations that could never be
      installed again, so it changes nothing but the work done. */
  lemma RecheckIsRedundant<I(!new)>(parser: Parser<I>, run: seq<Label<I>>, more: seq<Label<I>>, t: Task<I>)
    requires t in Exec(parser, run).tasks && t.purpose.Disk?
    requires var v := At(Exec(parser, run).views, t.snapshot.path); v.revision != t.snapshot.revision || v.open
    ensures !Installable(At(Exec(parser, run + more).views, t.snapshot.path), t.snapshot)
  {
    StoreInvariant(parser, run);
    assert Undisturbed(parser, At(Exec(parser, run).views, t.snapshot.path), t);
    RevisionsGrow(parser, run, more, t.snapshot.path);
  }

  /** A close ends with the path open exactly when the file was open and not
      indexed; from then on the files on disk are ignored for that path. */
  lemma CloseLeavesOpenIff<I(!new)>(parser: Parser<I>, run: seq<Label<I>>, path: Path, text: string)
    ensures var s := Exec(parser, run);
            var s' := Next(parser, s, CloseDocument(path));
            && (At(s'.views, path).open <==> At(s.views, path).open && !At(s.views, path).workspace)
            && (Next(parser, s', ReserveDisk(path, text)) == s' <==> At(s'.views, path).open)
  {
    StoreInvariant(parser, run);
    DocumentOriginIs(parser, path, At(Exec(parser, run).views, path));
    var s' := Next(parser, Exec(parser, run), CloseDocument(path));
    if !At(s'.views, path).open {
      assert At(Next(parser, s', ReserveDisk(path, text)).views, path).revision == At(s'.views, path).revision + 1;
    }
  }

  // ----- Publication -----

  ghost predicate Used<I(!new)>(s: System<I>, k: Ticket) {
    || (exists i :: 0 <= i < |s.log| && s.log[i].Published? && TicketOf(s.log[i].snapshot) == k)
    || (s.sending.Some? && TicketOf(s.sending.value) == k)
  }

  /** No revision of a path is published twice, and a snapshot waits for
      publication only after its reservation is gone. */
  ghost predicate TicketsOk<I(!new)>(s: System<I>) {
    && (forall t, p | t in s.tasks && p in s.pending :: TicketOf(t.snapshot) != TicketOf(p))
    && (forall p, q | p in s.pending && q in s.pending :: TicketOf(p) == TicketOf(q) ==> p == q)
    && (forall t | t in s.tasks :: !Used(s, TicketOf(t.snapshot)))
    && (forall p | p in s.pending :: !Used(s, TicketOf(p)) && p.revision <= At(s.views, p.path).revision)
  }

  /** `r` is not ahead of what the path holds or will hold. */
  ghost predicate Reached<I(!new)>(views: map<Path, View<I>>, k: Ticket) {
    var v := At(views, k.path);
    k.revision <= v.revision && (v.doc.Some? ==> k.revision <= v.doc.value.revision)
  }

  ghost function MessageTicket<I>(m: Message<I>): Ticket {
    match m case Published(s) => TicketOf(s) case Cleared(p, r) => Ticket(p, r)
  }

  ghost predicate HistoryOk<I(!new)>(s: System<I>) {
    && (forall i :: 0 <= i < |s.log| ==> Reached(s.views, MessageTicket(s.log[i])))
    && (forall c :: c in s.closing ==> Reached(s.views, Ticket(c.path, c.revision)))
    && (s.sending.Some? ==> Reached(s.views, TicketOf(s.sending.value)))
  }

  /** Messages about one path never go back: a publication is later than every
      earlier publication, and not older than an earlier clearing. */
  ghost predicate Later<I>(m: Message<I>, s: Snapshot<I>) {
    MessageTicket(m).path == s.path ==>
      if m.Published? then MessageTicket(m).revision < s.revision else MessageTicket(m).revision <= s.revision
  }

  ghost predicate LogOrdered<I(!new)>(log: seq<Message<I>>, sending: Option<Snapshot<I>>) {
    && (forall i, j :: 0 <= i < j < |log| && log[j].Published? ==> Later(log[i], log[j].snapshot))
    && (sending.Some? ==> forall i :: 0 <= i < |log| ==> Later(log[i], sending.value))
  }

  ghost predicate PublicationInv<I(!new)>(s: System<I>) {
    TicketsOk(s) && HistoryOk(s) && LogOrdered(s.log, s.sending)
  }

  /** A step never takes a path back to an earlier revision. */
  ghost predicate Onward<I(!new)>(v: View<I>, v': View<I>) {
    v.revision <= v'.revision && (v'.doc.Some? ==> v'.doc == v.doc || v.revision <= v'.doc.value.revision)
  }

  lemma NextOnward<I(!new)>(parser: Parser<I>, s: System<I>, l: Label<I>, path: Path)
    ensures Onward(At(s.views, path), At(Next(parser, s, l).views, path))
  {
  }

  lemma ReachedStays<I(!new)>(parser: Parser<I>, s: System<I>, l: Label<I>, k: Ticket)
    requires Reached(s.views, k)
    ensures Reached(Next(parser, s, l).views, k)
  {
    NextOnward(parser, s, l, k.path);
  }

  lemma NextKeepsHistory<I(!new)>(parser: Parser<I>, s: System<I>, l: Label<I>)
    requires StoreInv(parser, s) && HistoryOk(s)
    ensures HistoryOk(Next(parser, s, l))
  {
    hide TasksOk, TasksDistinct, Undisturbed;
    var s' := Next(parser, s, l);
    forall k | Reached(s.views, k) ensures Reached(s'.views, k) {
      ReachedStays(parser, s, l, k);
    }
    assert l.CheckPublication? && s'.sending.Some? && s.sending.None? ==> Reached(s.views, TicketOf(l.snapshot)) by {
      if l.CheckPublication? && s'.sending.Some? && s.sending.None? {
        assert Coherent(parser, l.snapshot.path, At(s.views, l.snapshot.path));
      }
    }
    forall i | 0 <= i < |s'.log| ensures Reached(s'.views, MessageTicket(s'.log[i])) {
      if i < |s.log| {
        assert s'.log[i] == s.log[i];
      }
    }
  }

  lemma NextKeepsOrder<I(!new)>(parser: Parser<I>, s: System<I>, l: Label<I>)
    requires StoreInv(parser, s) && PublicationInv(s)
    ensures LogOrdered(Next(parser, s, l).log, Next(parser, s, l).sending)
  {
    var s' := Next(parser, s, l);
    if l.CheckPublication? && s.sending.None? && s'.sending.Some? {
      var snapshot := l.snapshot;
      forall i | 0 <= i < |s.log| ensures Later(s.log[i], snapshot) {
        assert Reached(s.views, MessageTicket(s.log[i]));
        assert !Used(s, TicketOf(snapshot));
      }
    }
  }

  lemma UsedGrows<I(!new)>(parser: Parser<I>, s: System<I>, l: Label<I>, k: Ticket)
    ensures Used(Next(parser, s, l), k) ==>
            Used(s, k) || (l.CheckPublication? && l.snapshot in s.pending && s.sending.None? &&
                k == TicketOf(l.snapshot))
  {
    var s' := Next(parser, s, l);
    if i :| 0 <= i < |s'.log| && s'.log[i].Published? && TicketOf(s'.log[i].snapshot) == k {
      if i < |s.log| { assert s'.log[i] == s.log[i]; }
    }
  }

  lemma UsedIsReached<I(!new)>(s: System<I>, k: Ticket)
    requires HistoryOk(s)
    ensures Used(s, k) ==> Reached(s.views, k)
  {
    if i :| 0 <= i < |s.log| && s.log[i].Published? && TicketOf(s.log[i].snapshot) == k {
      assert Reached(s.views, MessageTicket(s.log[i]));
    }
  }

  lemma ReserveKeepsTickets<I(!new)>(parser: Parser<I>, s: System<I>, path: Path, text: string, version: int,
                                     purpose: Purpose)
    requires PublicationInv(s)
    ensures TicketsOk(ReserveStep(parser, s, path, text, version, purpose))
  {
    var s' := ReserveStep(parser, s, path, text, version, purpose);
    var k := Ticket(path, At(s.views, path).revision + 1);
    forall t ensures Used(s', t) <==> Used(s, t) {
    }
    UsedIsReached(s, k);
    forall t | t in s'.tasks ensures !Used(s', TicketOf(t.snapshot)) {
      assert t in s.tasks || TicketOf(t.snapshot) == k;
    }
  }

  lemma InstallKeepsTickets<I(!new)>(parser: Parser<I>, s: System<I>, t: Task<I>)
    requires StoreInv(parser, s) && PublicationInv(s) && t in s.tasks
    ensures TicketsOk(InstallStep(s, t))
  {
    var s' := InstallStep(s, t);
    assert Undisturbed(parser, At(s.views, t.snapshot.path), t);
    forall k ensures Used(s', k) <==> Used(s, k) {
    }
    forall p | p in s'.pending ensures !Used(s', TicketOf(p)) && p.revision <= At(s'.views, p.path).revision {
      assert p in s.pending || p == t.snapshot;
    }
  }

  lemma NextKeepsTickets<I(!new)>(parser: Parser<I>, s: System<I>, l: Label<I>)
    requires StoreInv(parser, s) && PublicationInv(s)
    ensures TicketsOk(Next(parser, s, l))
  {
    match l
    case ReserveEdit(path, text, version, change) => ReserveKeepsTickets(parser, s, path, text, version, Edit(change));
    case ReserveDisk(path, text) =>
      if !At(s.views, path).open { ReserveKeepsTickets(parser, s, path, text, 0, Disk(false)); }
    case InstallTask(t) => if t in s.tasks && ReadyToInstall(t) { InstallKeepsTickets(parser, s, t); }
    case _ => OtherKeepsTickets(parser, s, l);
  }

  lemma OtherKeepsTickets<I(!new)>(parser: Parser<I>, s: System<I>, l: Label<I>)
    requires StoreInv(parser, s) && PublicationInv(s) && !l.ReserveEdit? && !l.ReserveDisk? && !l.InstallTask?
    ensures TicketsOk(Next(parser, s, l))
  {
    var s' := Next(parser, s, l);
    OtherKeepsSets(parser, s, l);
    hide Next;
    forall t | t in s'.tasks ensures !Used(s', TicketOf(t.snapshot)) {
      UsedGrows(parser, s, l, TicketOf(t.snapshot));
      var u :| u in s.tasks && TicketOf(u.snapshot) == TicketOf(t.snapshot);
    }
    forall t, p | t in s'.tasks && p in s'.pending ensures TicketOf(t.snapshot) != TicketOf(p) {
      var u :| u in s.tasks && TicketOf(u.snapshot) == TicketOf(t.snapshot);
    }
    forall p | p in s'.pending ensures !Used(s', TicketOf(p)) && p.revision <= At(s'.views, p.path).revision {
      UsedGrows(parser, s, l, TicketOf(p));
      NextOnward(parser, s, l, p.path);
    }
  }

  /** The other steps invent no task and no pending publication. */
  lemma OtherKeepsSets<I(!new)>(parser: Parser<I>, s: System<I>, l: Label<I>)
    requires !l.ReserveEdit? && !l.ReserveDisk? && !l.InstallTask?
    ensures var s' := Next(parser, s, l);
            && s'.pending <= s.pending
            && (l.CheckPublication? && s.sending.None? ==> l.snapshot !in s'.pending)
            && (forall t :: t in s'.tasks ==> exists u :: u in s.tasks && TicketOf(u.snapshot) == TicketOf(t.snapshot))
  {
    var s' := Next(parser, s, l);
    forall t | t in s'.tasks ensures exists u :: u in s.tasks && TicketOf(u.snapshot) == TicketOf(t.snapshot) {
      if t !in s.tasks {
        assert l.Recheck? && t == l.task.(purpose := Disk(true)) && l.task in s.tasks;
      }
    }
  }

  lemma {:induction false} PublicationInvariant<I(!new)>(parser: Parser<I>, run: seq<Label<I>>)
    ensures PublicationInv(Exec(parser, run))
  {
    if run != [] {
      var init, l := run[..|run| - 1], run[|run| - 1];
      StoreInvariant(parser, init);
      PublicationInvariant(parser, init);
      NextKeepsTickets(parser, Exec(parser, init), l);
      NextKeepsHistory(parser, Exec(parser, init), l);
      NextKeepsOrder(parser, Exec(parser, init), l);
    }
  }

  /** What the client sees about one path over any run: publications carry
      strictly increasing revisions, and after a close is cleared no snapshot
      older than that close is published. */
  lemma PublicationOrder<I(!new)>(parser: Parser<I>, run: seq<Label<I>>, i: nat, j: nat)
    requires i < j < |Exec(parser, run).log|
    ensures var log := Exec(parser, run).log;
            log[j].Published? ==>
              match log[i]
              case Published(s) => s.path == log[j].snapshot.path ==> s.revision < log[j].snapshot.revision
              case Cleared(p, r) => p == log[j].snapshot.path ==> r <= log[j].snapshot.revision
  {
    PublicationInvariant(parser, run);
    var log := Exec(parser, run).log;
    if log[j].Published? { assert Later(log[i], log[j].snapshot); }
  }

  /** Everything made before a close is older than the close. */
  lemma CloseIsNewer<I(!new)>(parser: Parser<I>, run: seq<Label<I>>, path: Path)
    ensures var s, r := Exec(parser, run), Close(At(Exec(parser, run).views, path)).revision;
            && Closing(path, r) in Next(parser, s, CloseDocument(path)).closing
            && (At(s.views, path).doc.Some? ==> At(s.views, path).doc.value.revision < r)
            && (forall t :: t in s.tasks && t.snapshot.path == path ==> t.snapshot.revision < r)
            && (forall p :: p in s.pending && p.path == path ==> p.revision < r)
            && (s.sending.Some? && s.sending.value.path == path ==> s.sending.value.revision < r)
  {
    StoreInvariant(parser, run);
    PublicationInvariant(parser, run);
    var s := Exec(parser, run);
    assert Coherent(parser, path, At(s.views, path));
    forall t | t in s.tasks && t.snapshot.path == path ensures t.snapshot.revision < Close(At(s.views, path)).revision {
      assert Undisturbed(parser, At(s.views, path), t);
    }
  }

  /** The snapshot is a document, or on its way to become or to report one. */
  ghost predicate Underway<I(!new)>(s: System<I>, snapshot: Snapshot<I>) {
    || (exists t :: t in s.tasks && t.snapshot == snapshot)
    || snapshot in s.pending || s.sending == Some(snapshot) || At(s.views, snapshot.path).doc == Some(snapshot)
  }

  /** What was made before a close and is published at all is published before
      that close is cleared. */
  lemma PublishedBeforeCleared<I(!new)>(parser: Parser<I>, run: seq<Label<I>>, k: nat, snapshot: Snapshot<I>, i: nat,
                                        j: nat)
    requires k < |run| && run[k] == CloseDocument(snapshot.path) && Underway(Exec(parser, run[..k]), snapshot)
    requires i < |Exec(parser, run).log| && j < |Exec(parser, run).log|
    requires Exec(parser, run).log[j] == Published(snapshot)
    requires Exec(parser, run).log[i] ==
             Cleared(snapshot.path, Close(At(Exec(parser, run[..k]).views, snapshot.path)).revision)
    ensures j < i
  {
    hide Exec, Next, Close;
    CloseIsNewer(parser, run[..k], snapshot.path);
    if i < j { PublicationOrder(parser, run, i, j); }
  }

  /** Only the current document of a path is taken up for sending. */
  lemma SentIsCurrent<I(!new)>(parser: Parser<I>, s: System<I>, l: Label<I>, snapshot: Snapshot<I>)
    requires var s' := Next(parser, s, l); s'.sending == Some(snapshot) || Published(snapshot) in s'.log
    ensures s.sending == Some(snapshot) || Published(snapshot) in s.log ||
            At(s.views, snapshot.path).doc == Some(snapshot)
  {}

  /** A published snapshot was the document of its path at some point of the run. */
  lemma {:induction false} WasCurrent<I(!new)>(parser: Parser<I>, run: seq<Label<I>>, snapshot: Snapshot<I>)
    requires Exec(parser, run).sending == Some(snapshot) || Published(snapshot) in Exec(parser, run).log
    ensures exists k :: 0 <= k < |run| && At(Exec(parser, run[..k]).views, snapshot.path).doc == Some(snapshot)
  {
    hide Next;
    var n := |run| - 1;
    var init, l := run[..n], run[n];
    var s := Exec(parser, init);
    SentIsCurrent(parser, s, l, snapshot);
    if s.sending == Some(snapshot) || Published(snapshot) in s.log {
      WasCurrent(parser, init, snapshot);
      var k :| 0 <= k < n && At(Exec(parser, init[..k]).views, snapshot.path).doc == Some(snapshot);
      assert init[..k] == run[..k];
    } else {
      assert At(Exec(parser, run[..n]).views, snapshot.path).doc == Some(snapshot);
    }
  }
}
