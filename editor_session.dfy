/**
 * The back end's table of editor sessions (back_end/src/editor/session.rs).
 * Each user has at most one session: a container running their project,
 * either Active (a client is attached) or Waiting (the client left and a
 * timer will end the session unless the user comes back first).
 *
 * Docker, GitHub and the timer tasks are outside the model. What the table
 * asks of them is recorded, in order, in the ghost `log`; what they answer
 * is a parameter. The invariant ties the two together: replaying the log
 * gives exactly the timers the table holds, and the containers it holds
 * together with the ones it has lost track of: a container whose stop
 * failed after its entry was removed keeps running with no entry.
 */
module EditorSessions {
  import opened Wrappers
  import opened AppErrors
  import opened ProjectLanguages

  type UserId = int
  type ContainerId = string
  /** A spawned timer task, numbered in the order the tasks were spawned. */
  type TimerId = nat

  /** Refreshed GitHub tokens, reduced to the two tokens themselves. */
  datatype Tokens = Tokens(accessToken: string, refreshToken: string)

  /** A value together with the GitHub tokens, if the call had to refresh them. */
  datatype WithTokens<T> = WithTokens(value: T, tokens: Option<Tokens>)

  datatype SessionHandle = SessionHandle(projectId: int, containerId: ContainerId)

  datatype SessionMode = Active | Waiting(timer: TimerId)

  datatype SessionState = SessionState(handle: SessionHandle, mode: SessionMode)

  /** The image every session runs, whatever the project's language. */
  const Image: string := "python:3"

  /** Where the project's files go inside the container. */
  const WorkspacePath: string := "/home/workspace"

  /** What a container is created with. */
  datatype ContainerConfig = ContainerConfig(
    image: string,
    tty: bool,
    runtime: string,
    autoRemove: bool,
    mountTarget: string,
    mountReadOnly: bool)

  /** An interactive terminal, the gVisor runtime, removed once stopped, a writable workspace volume. */
  const Config: ContainerConfig := ContainerConfig(Image, true, "runsc", true, WorkspacePath, false)

  /** The outside calls the table makes, in the order it makes them. */
  datatype Effect =
    | PullImage(image: string)
    | CreateContainer(config: ContainerConfig)
    | StartContainer(id: ContainerId, started: bool)
    | FetchTarball(accessToken: string, refreshToken: string, username: string, repoName: string)
    | Upload(id: ContainerId, path: string)
    | StopContainer(id: ContainerId, stopped: bool)
    | SpawnTimer(timer: TimerId, user: UserId)
    | AbortTimer(timer: TimerId)

  // ---------------------------------------------------------------------
  // What the log leaves behind
  // ---------------------------------------------------------------------

  /** The containers started and not since stopped, and the timers spawned and not since aborted. */
  datatype World = World(running: set<ContainerId>, live: set<TimerId>)

  function Apply(w: World, e: Effect): World {
    match e
    case StartContainer(id, started) => if started then w.(running := w.running + {id}) else w
    case StopContainer(id, stopped) => if stopped then w.(running := w.running - {id}) else w
    case SpawnTimer(t, _) => w.(live := w.live + {t})
    case AbortTimer(t) => w.(live := w.live - {t})
    case _ => w
  }

  function Replay(w: World, es: seq<Effect>): World
    decreases |es|
  {
    if |es| == 0 then w else Replay(Apply(w, es[0]), es[1..])
  }

  /** Replaying a log in two pieces is replaying it whole. */
  lemma {:induction false} ReplayAppend(w: World, a: seq<Effect>, b: seq<Effect>)
    ensures Replay(w, a + b) == Replay(Replay(w, a), b)
    decreases |a|
  {
    if |a| == 0 {
      assert a + b == b;
    } else {
      assert (a + b)[1..] == a[1..] + b;
      ReplayAppend(Apply(w, a[0]), a[1..], b);
    }
  }

  lemma ReplayOne(w: World, e: Effect)
    ensures Replay(w, [e]) == Apply(w, e)
  {
    assert [e][1..] == [];
  }

  lemma ReplayTwo(w: World, e: Effect, f: Effect)
    ensures Replay(w, [e, f]) == Apply(Apply(w, e), f)
  {
    assert [e, f][1..] == [f];
    ReplayOne(Apply(w, e), f);
  }

  // ---------------------------------------------------------------------
  // The table as a value
  // ---------------------------------------------------------------------

  function ContainerIds(table: map<UserId, SessionState>): set<ContainerId> {
    set u | u in table :: table[u].handle.containerId
  }

  function Timers(table: map<UserId, SessionState>): set<TimerId> {
    set u | u in table && table[u].mode.Waiting? :: table[u].mode.timer
  }

  /** No two users share a container or a timer. */
  ghost predicate Distinct(table: map<UserId, SessionState>) {
    forall u, v :: u in table && v in table && u != v ==>
      table[u].handle.containerId != table[v].handle.containerId &&
      (table[u].mode.Waiting? && table[v].mode.Waiting? ==> table[u].mode.timer != table[v].mode.timer)
  }

  /**
   * The calls that ending `s` makes: its container is stopped, with the
   * outcome `stopped`, then its timer, if any, is aborted.
   */
  function EndEffects(s: SessionState, stopped: bool): (es: seq<Effect>)
    ensures |es| >= 1 && es[0] == StopContainer(s.handle.containerId, stopped)
    ensures forall i :: 1 <= i < |es| ==> s.mode.Waiting? && es[i] == AbortTimer(s.mode.timer)
  {
    [StopContainer(s.handle.containerId, stopped)] + if s.mode.Waiting? then [AbortTimer(s.mode.timer)] else []
  }

  /** The containers a failed stop of `s`'s container leaves running with no entry. */
  function Stranded(s: SessionState, stopped: bool): set<ContainerId> {
    if stopped then {} else {s.handle.containerId}
  }

  lemma ContainerIdsUpdate(table: map<UserId, SessionState>, u: UserId, s: SessionState)
    ensures ContainerIds(table[u := s]) == ContainerIds(table - {u}) + {s.handle.containerId}
  {
    var t := table[u := s];
    var rest := table - {u};
    forall x | x in ContainerIds(t)
      ensures x in ContainerIds(rest) + {s.handle.containerId}
    {
      var v :| v in t && t[v].handle.containerId == x;
      if v != u {
        assert v in rest && rest[v] == t[v];
      }
    }
    forall x | x in ContainerIds(rest) + {s.handle.containerId}
      ensures x in ContainerIds(t)
    {
      if x == s.handle.containerId {
        assert t[u].handle.containerId == x;
      } else {
        var v :| v in rest && rest[v].handle.containerId == x;
        assert v in t && t[v] == rest[v];
      }
    }
  }

  lemma TimersUpdate(table: map<UserId, SessionState>, u: UserId, s: SessionState)
    ensures Timers(table[u := s]) == Timers(table - {u}) + (if s.mode.Waiting? then {s.mode.timer} else {})
  {
    var t := table[u := s];
    var rest := table - {u};
    var added: set<TimerId> := if s.mode.Waiting? then {s.mode.timer} else {};
    forall x | x in Timers(t)
      ensures x in Timers(rest) + added
    {
      var v :| v in t && t[v].mode.Waiting? && t[v].mode.timer == x;
      if v != u {
        assert v in rest && rest[v] == t[v];
      }
    }
    forall x | x in Timers(rest) + added
      ensures x in Timers(t)
    {
      if x in added {
        assert t[u].mode.Waiting? && t[u].mode.timer == x;
      } else {
        var v :| v in rest && rest[v].mode.Waiting? && rest[v].mode.timer == x;
        assert v in t && t[v] == rest[v];
      }
    }
  }

  /** An entry's container and timer belong to no other entry. */
  lemma Split(table: map<UserId, SessionState>, u: UserId)
    requires Distinct(table) && u in table
    ensures Distinct(table - {u})
    ensures ContainerIds(table) == ContainerIds(table - {u}) + {table[u].handle.containerId}
    ensures table[u].handle.containerId !in ContainerIds(table - {u})
    ensures Timers(table) == Timers(table - {u}) + (if table[u].mode.Waiting? then {table[u].mode.timer} else {})
    ensures table[u].mode.Waiting? ==> table[u].mode.timer !in Timers(table - {u})
  {
    assert table[u := table[u]] == table;
    ContainerIdsUpdate(table, u, table[u]);
    TimersUpdate(table, u, table[u]);
  }

  /**
   * Removing an entry takes away its timer, and its container too when the
   * stop works; when it fails, the container still runs and is lost track of.
   */
  lemma RemoveEntry(table: map<UserId, SessionState>, u: UserId, leaked: set<ContainerId>, w: World, stopped: bool)
    requires Distinct(table) && u in table && ContainerIds(table) !! leaked
    requires w == World(ContainerIds(table) + leaked, Timers(table))
    ensures Distinct(table - {u}) && ContainerIds(table - {u}) !! leaked + Stranded(table[u], stopped)
    ensures Replay(w, EndEffects(table[u], stopped)) ==
      World(ContainerIds(table - {u}) + (leaked + Stranded(table[u], stopped)), Timers(table - {u}))
    ensures Timers(table - {u}) <= Timers(table)
    ensures table[u].handle.containerId in Replay(w, EndEffects(table[u], stopped)).running <==> !stopped
  {
    var s := table[u];
    Split(table, u);
    if s.mode.Waiting? {
      ReplayTwo(w, StopContainer(s.handle.containerId, stopped), AbortTimer(s.mode.timer));
    } else {
      ReplayOne(w, StopContainer(s.handle.containerId, stopped));
    }
  }

  /** Giving an entry a new mode swaps its old timer, if any, for the new one, if any. */
  lemma SetMode(table: map<UserId, SessionState>, u: UserId, m: SessionMode)
    requires Distinct(table) && u in table && (m.Waiting? ==> m.timer !in Timers(table))
    ensures Distinct(table[u := table[u].(mode := m)])
    ensures ContainerIds(table[u := table[u].(mode := m)]) == ContainerIds(table)
    ensures Timers(table[u := table[u].(mode := m)]) ==
      (Timers(table) - (if table[u].mode.Waiting? then {table[u].mode.timer} else {})) + (if m.Waiting? then {m.timer} else {})
  {
    var s := table[u].(mode := m);
    Split(table, u);
    ContainerIdsUpdate(table, u, s);
    TimersUpdate(table, u, s);
  }

  /** A new Active entry adds its container and no timer. */
  lemma AddEntry(table: map<UserId, SessionState>, u: UserId, s: SessionState)
    requires Distinct(table) && u !in table && s.handle.containerId !in ContainerIds(table) && s.mode.Active?
    ensures Distinct(table[u := s])
    ensures ContainerIds(table[u := s]) == ContainerIds(table) + {s.handle.containerId}
    ensures Timers(table[u := s]) == Timers(table)
  {
    assert table - {u} == table;
    ContainerIdsUpdate(table, u, s);
    TimersUpdate(table, u, s);
    forall v | v in table
      ensures table[v].handle.containerId != s.handle.containerId
    {
      assert table[v].handle.containerId in ContainerIds(table);
    }
  }

  // ---------------------------------------------------------------------
  // create_session, as written and corrected
  // ---------------------------------------------------------------------

  /**
   * What each outside call of `create_session` answers. `stopped` is the
   * outcome of the stop that only the corrected create makes.
   */
  datatype StepResults = StepResults(
    pulled: Result<(), string>,
    created: Result<ContainerId, string>,
    started: Result<(), string>,
    fetched: Result<WithTokens<seq<bv8>>, AppError>,
    uploaded: Result<(), string>,
    stopped: bool)

  /** The calls made, the answer given, and the entry to insert, if any. */
  datatype Attempt = Attempt(effects: seq<Effect>, result: Result<WithTokens<ContainerId>, AppError>, entry: Option<SessionState>)

  /** The container was created and started before something failed or succeeded. */
  predicate Started(rs: StepResults) {
    rs.pulled.Ok? && rs.created.Ok? && rs.started.Ok?
  }

  /**
   * `create_session` as written: pull the image, create and start the
   * container, fetch the project, upload it; the first failure is returned
   * and nothing else is done.
   */
  function CreateAsWritten(project: int, username: string, repoName: string, accessToken: string, refreshToken: string, rs: StepResults): (a: Attempt)
    ensures a.result.Ok? <==> a.entry.Some?
    ensures |a.effects| >= 1
  {
    var fetch := FetchTarball(accessToken, refreshToken, username, repoName);
    if rs.pulled.Err? then Attempt([PullImage(Image)], Err(OtherFrom(rs.pulled.error)), None)
    else if rs.created.Err? then Attempt([PullImage(Image), CreateContainer(Config)], Err(OtherFrom(rs.created.error)), None)
    else
      var id := rs.created.value;
      var begun := [PullImage(Image), CreateContainer(Config), StartContainer(id, rs.started.Ok?)];
      if rs.started.Err? then Attempt(begun, Err(OtherFrom(rs.started.error)), None)
      else if rs.fetched.Err? then Attempt(begun + [fetch], Err(rs.fetched.error), None)
      else if rs.uploaded.Err? then Attempt(begun + [fetch, Upload(id, WorkspacePath)], Err(OtherFrom(rs.uploaded.error)), None)
      else Attempt(begun + [fetch, Upload(id, WorkspacePath)], Ok(WithTokens(id, rs.fetched.value.tokens)),
                   Some(SessionState(SessionHandle(project, id), Active)))
  }

  /**
   * The defect: when the fetch or the upload fails, the container has been
   * started, is left running, and belongs to no entry, so nothing will ever
   * stop it.
   */
  lemma CreateLeaks(project: int, username: string, repoName: string, accessToken: string, refreshToken: string, rs: StepResults, w: World)
    requires Started(rs) && (rs.fetched.Err? || rs.uploaded.Err?)
    ensures CreateAsWritten(project, username, repoName, accessToken, refreshToken, rs).entry.None?
    ensures rs.created.value in Replay(w, CreateAsWritten(project, username, repoName, accessToken, refreshToken, rs).effects).running
  {
    var a := CreateAsWritten(project, username, repoName, accessToken, refreshToken, rs);
    var id := rs.created.value;
    var start := StartContainer(id, true);
    var fetch := FetchTarball(accessToken, refreshToken, username, repoName);
    var front := [PullImage(Image), CreateContainer(Config)];
    var tail := a.effects[3..];
    assert a.effects == front + ([start] + tail);
    ReplayAppend(w, front, [start] + tail);
    ReplayTwo(w, PullImage(Image), CreateContainer(Config));
    ReplayAppend(w, [start], tail);
    ReplayOne(w, start);
    var w1 := w.(running := w.running + {id});
    if rs.fetched.Err? {
      assert tail == [fetch];
      ReplayOne(w1, fetch);
    } else {
      assert tail == [fetch, Upload(id, WorkspacePath)];
      ReplayTwo(w1, fetch, Upload(id, WorkspacePath));
    }
  }

  /** `create_session` corrected: a started container whose session could not be set up is stopped again. */
  function CreateSteps(project: int, username: string, repoName: string, accessToken: string, refreshToken: string, rs: StepResults): (a: Attempt)
    ensures a.result.Ok? <==> a.entry.Some?
    ensures |a.effects| >= 1
    ensures a.entry.Some? ==> (Started(rs) && a.result.value.value == rs.created.value &&
      a.entry.value == SessionState(SessionHandle(project, rs.created.value), Active))
    ensures a.result.Err? && Started(rs) ==> a.effects[|a.effects| - 1] == StopContainer(rs.created.value, rs.stopped)
  {
    var w := CreateAsWritten(project, username, repoName, accessToken, refreshToken, rs);
    if Started(rs) && w.result.Err? then w.(effects := w.effects + [StopContainer(rs.created.value, rs.stopped)]) else w
  }

  /** The container a corrected create leaves running with no entry: one it started, could not set up and failed to stop. */
  function Abandoned(a: Attempt, rs: StepResults): set<ContainerId> {
    if Started(rs) && a.entry.None? && !rs.stopped then {rs.created.value} else {}
  }

  /**
   * With the correction, a session that was set up adds exactly its own
   * container, and one that could not be set up leaves its container
   * running only when the stop that should undo the start fails too; the
   * image pull, the fetch and the upload start or stop nothing.
   */
  lemma CreateReplay(project: int, username: string, repoName: string, accessToken: string, refreshToken: string, rs: StepResults, w: World)
    requires rs.created.Ok? ==> rs.created.value !in w.running
    ensures var a := CreateSteps(project, username, repoName, accessToken, refreshToken, rs);
      Replay(w, a.effects) ==
        if a.entry.Some? || Abandoned(a, rs) != {} then w.(running := w.running + {rs.created.value}) else w
  {
    var a := CreateSteps(project, username, repoName, accessToken, refreshToken, rs);
    var front := [PullImage(Image), CreateContainer(Config)];
    ReplayTwo(w, PullImage(Image), CreateContainer(Config));
    if !rs.pulled.Ok? {
      ReplayOne(w, PullImage(Image));
    } else if rs.created.Ok? {
      var id := rs.created.value;
      var start := StartContainer(id, rs.started.Ok?);
      var tail := a.effects[3..];
      assert a.effects == front + ([start] + tail);
      ReplayAppend(w, front, [start] + tail);
      ReplayAppend(w, [start], tail);
      ReplayOne(w, start);
      if rs.started.Ok? {
        StartedReplay(project, username, repoName, accessToken, refreshToken, rs, w.(running := w.running + {id}), tail);
      } else {
        assert tail == [];
      }
    }
  }

  /** After a successful start, the corrected steps stop the container again unless the session is set up. */
  lemma StartedReplay(project: int, username: string, repoName: string, accessToken: string, refreshToken: string, rs: StepResults, w1: World, tail: seq<Effect>)
    requires Started(rs) && tail == CreateSteps(project, username, repoName, accessToken, refreshToken, rs).effects[3..]
    ensures Replay(w1, tail) ==
      if (rs.fetched.Ok? && rs.uploaded.Ok?) || !rs.stopped then w1 else w1.(running := w1.running - {rs.created.value})
  {
    var id := rs.created.value;
    var fetch := FetchTarball(accessToken, refreshToken, username, repoName);
    var stop := StopContainer(id, rs.stopped);
    if rs.fetched.Err? {
      assert tail == [fetch, stop];
      ReplayTwo(w1, fetch, stop);
    } else if rs.uploaded.Err? {
      assert tail == [fetch, Upload(id, WorkspacePath)] + [stop];
      ReplayAppend(w1, [fetch, Upload(id, WorkspacePath)], [stop]);
      ReplayTwo(w1, fetch, Upload(id, WorkspacePath));
      ReplayOne(w1, stop);
    } else {
      assert tail == [fetch, Upload(id, WorkspacePath)];
      ReplayTwo(w1, fetch, Upload(id, WorkspacePath));
    }
  }

  // ---------------------------------------------------------------------
  // The session manager
  // ---------------------------------------------------------------------

  /** `table` with the entry of a successful attempt inserted for `user`. */
  function Install(table: map<UserId, SessionState>, user: UserId, a: Attempt): map<UserId, SessionState> {
    if a.entry.Some? then table[user := a.entry.value] else table
  }

  /** `EditorSessionManager`: the shared table, with the outside calls it has made. */
  class SessionManager {
    var table: map<UserId, SessionState>
    /** How many timer tasks have been spawned; the next one gets this number. */
    var spawned: nat
    ghost var log: seq<Effect>
    /** Containers still running that no entry refers to: their stop failed. */
    ghost var leaked: set<ContainerId>

    /**
     * Each user's container is running; the only other running containers
     * are the leaked ones; each Waiting entry's timer is live and no other
     * timer is; no two entries share either.
     */
    ghost predicate Valid()
      reads this
    {
      Distinct(table) && ContainerIds(table) !! leaked &&
      Replay(World({}, {}), log) == World(ContainerIds(table) + leaked, Timers(table)) &&
      forall t :: t in Timers(table) ==> t < spawned
    }

    /** The containers the calls made so far have left running. */
    ghost function Running(): set<ContainerId>
      reads this
    {
      Replay(World({}, {}), log).running
    }

    /** `EditorSessionManager::default`: an empty table. */
    constructor()
      ensures Valid() && table == map[] && log == [] && leaked == {} && spawned == 0
    {
      table := map[];
      spawned := 0;
      log := [];
      leaked := {};
    }

    /** Appends the calls to the log. */
    method Record(es: seq<Effect>)
      modifies this
      ensures log == old(log) + es && table == old(table) && spawned == old(spawned) && leaked == old(leaked)
      ensures Replay(World({}, {}), log) == Replay(Replay(World({}, {}), old(log)), es)
    {
      ReplayAppend(World({}, {}), log, es);
      log := log + es;
    }

    /**
     * `end_session`: the entry is removed, its container stopped and its
     * timer, if any, aborted; the stop's failure is the call's, and the
     * container it failed to stop is left running with no entry. Without an
     * entry nothing is called.
     */
    method EndSession(user: UserId, stopped: Result<(), string>) returns (r: Result<(), AppError>)
      requires Valid()
      modifies this
      ensures Valid() && spawned == old(spawned)
      ensures user !in old(table) ==> r == Ok(()) && table == old(table) && log == old(log) && leaked == old(leaked)
      ensures user in old(table) ==> table == old(table) - {user} && log == old(log) + EndEffects(old(table)[user], stopped.Ok?)
      ensures user in old(table) ==> leaked == old(leaked) + Stranded(old(table)[user], stopped.Ok?)
      ensures user in old(table) ==> (old(table)[user].handle.containerId in Running() <==> stopped.Err?)
      ensures user in old(table) ==> r == if stopped.Ok? then Ok(()) else Err(OtherFrom(stopped.error))
    {
      if user !in table {
        return Ok(());
      }
      var session := table[user];
      RemoveEntry(table, user, leaked, World(ContainerIds(table) + leaked, Timers(table)), stopped.Ok?);
      table := table - {user};
      leaked := leaked + Stranded(session, stopped.Ok?);
      Record(EndEffects(session, stopped.Ok?));
      r := if stopped.Ok? then Ok(()) else Err(OtherFrom(stopped.error));
    }

    /**
     * `idle_session`: an existing entry becomes Waiting on a newly spawned
     * timer, and the timer it waited on before, if any, is aborted. Without
     * an entry nothing happens.
     */
    method IdleSession(user: UserId)
      requires Valid()
      modifies this
      ensures Valid() && leaked == old(leaked)
      ensures user !in old(table) ==> table == old(table) && log == old(log) && spawned == old(spawned)
      ensures user in old(table) ==>
        table == old(table)[user := old(table)[user].(mode := Waiting(old(spawned)))] &&
        spawned == old(spawned) + 1 &&
        log == old(log) + [SpawnTimer(old(spawned), user)] +
          (if old(table)[user].mode.Waiting? then [AbortTimer(old(table)[user].mode.timer)] else [])
      ensures user in old(table) && old(table)[user].mode.Waiting? ==>
        old(table)[user].mode.timer !in Replay(World({}, {}), log).live
    {
      if user !in table {
        return;
      }
      var old_ := table[user];
      var t := spawned;
      ghost var w := World(ContainerIds(table) + leaked, Timers(table));
      SetMode(table, user, Waiting(t));
      table := table[user := old_.(mode := Waiting(t))];
      spawned := spawned + 1;
      if old_.mode.Waiting? {
        ReplayTwo(w, SpawnTimer(t, user), AbortTimer(old_.mode.timer));
        Record([SpawnTimer(t, user), AbortTimer(old_.mode.timer)]);
      } else {
        ReplayOne(w, SpawnTimer(t, user));
        Record([SpawnTimer(t, user)]);
      }
    }

    /**
     * A Waiting entry's timer runs out and its task ends the session,
     * dropping the stop's error. Only a timer still held can run: replacing
     * or removing the entry drops the handle, which aborts the task.
     */
    method TimerFires(user: UserId, timer: TimerId, stopped: Result<(), string>)
      requires Valid() && user in table && table[user].mode == Waiting(timer)
      modifies this
      ensures Valid() && spawned == old(spawned)
      ensures table == old(table) - {user}
      ensures log == old(log) + [StopContainer(old(table)[user].handle.containerId, stopped.Ok?), AbortTimer(timer)]
      ensures leaked == old(leaked) + Stranded(old(table)[user], stopped.Ok?)
      ensures timer !in Replay(World({}, {}), log).live
    {
      var _ := EndSession(user, stopped);
    }

    /**
     * `create_session` (with the correction): on success the user gets an
     * Active entry for the new container and the project; a started
     * container that could not be set up and then failed to stop is leaked.
     * Docker never hands out the id of a container still running.
     */
    method CreateSession(user: UserId, project: int, username: string, repoName: string, lang: ProjectLang,
                         accessToken: string, refreshToken: string, rs: StepResults)
      returns (r: Result<WithTokens<ContainerId>, AppError>)
      requires Valid() && user !in table
      requires rs.created.Ok? ==> rs.created.value !in Running()
      modifies this
      ensures Valid() && spawned == old(spawned)
      ensures var a := CreateSteps(project, username, repoName, accessToken, refreshToken, rs);
        r == a.result && log == old(log) + a.effects && table == Install(old(table), user, a) &&
        leaked == old(leaked) + Abandoned(a, rs)
    {
      var a := CreateSteps(project, username, repoName, accessToken, refreshToken, rs);
      CreateReplay(project, username, repoName, accessToken, refreshToken, rs, World(ContainerIds(table) + leaked, Timers(table)));
      if a.entry.Some? {
        AddEntry(table, user, a.entry.value);
        table := table[user := a.entry.value];
      }
      leaked := leaked + Abandoned(a, rs);
      Record(a.effects);
      r := a.result;
    }

    /** Reattaching to a Waiting session of the same project: it becomes Active and its timer is aborted. */
    method Reactivate(user: UserId)
      requires Valid() && user in table && table[user].mode.Waiting?
      modifies this
      ensures Valid() && spawned == old(spawned) && leaked == old(leaked)
      ensures table == old(table)[user := old(table)[user].(mode := Active)]
      ensures log == old(log) + [AbortTimer(old(table)[user].mode.timer)]
      ensures old(table)[user].mode.timer !in Replay(World({}, {}), log).live
    {
      var t := table[user].mode.timer;
      ghost var w := World(ContainerIds(table) + leaked, Timers(table));
      SetMode(table, user, Active);
      table := table[user := table[user].(mode := Active)];
      ReplayOne(w, AbortTimer(t));
      Record([AbortTimer(t)]);
    }

    /** Ending a Waiting session of another project, then creating a new one if the stop worked. */
    method Replace(user: UserId, project: int, username: string, repoName: string, lang: ProjectLang,
                   accessToken: string, refreshToken: string, stopped: Result<(), string>, rs: StepResults)
      returns (r: Result<WithTokens<ContainerId>, AppError>)
      requires Valid() && user in table
      requires rs.created.Ok? ==> rs.created.value !in Running()
      modifies this
      ensures Valid() && spawned == old(spawned)
      ensures stopped.Err? ==>
        r == Err(OtherFrom(stopped.error)) && table == old(table) - {user} && log == old(log) + EndEffects(old(table)[user], false) &&
        leaked == old(leaked) + {old(table)[user].handle.containerId}
      ensures stopped.Ok? ==> var a := CreateSteps(project, username, repoName, accessToken, refreshToken, rs);
        r == a.result && table == Install(old(table) - {user}, user, a) && log == old(log) + EndEffects(old(table)[user], true) + a.effects &&
        leaked == old(leaked) + Abandoned(a, rs)
    {
      var ended := EndSession(user, stopped);
      if ended.Err? {
        return Err(ended.error);
      }
      assert Running() <= old(Running());
      r := CreateSession(user, project, username, repoName, lang, accessToken, refreshToken, rs);
    }

    /**
     * `open`: a user already attached is refused; a user coming back to the
     * same project within the grace period gets the waiting session back,
     * with no container work and an empty container id; otherwise any
     * waiting session is ended first and a new one is created.
     */
    method Open(user: UserId, project: int, username: string, repoName: string, lang: ProjectLang,
                accessToken: string, refreshToken: string, stopped: Result<(), string>, rs: StepResults)
      returns (r: Result<WithTokens<ContainerId>, AppError>)
      requires Valid()
      requires rs.created.Ok? ==> rs.created.value !in Running()
      modifies this
      ensures Valid() && spawned == old(spawned)
      ensures user in old(table) && old(table)[user].mode.Active? ==>
        r == Err(SessionConflict) && table == old(table) && log == old(log) && leaked == old(leaked)
      ensures user in old(table) && old(table)[user].mode.Waiting? && old(table)[user].handle.projectId == project ==>
        r == Ok(WithTokens("", None)) && table == old(table)[user := old(table)[user].(mode := Active)] &&
        log == old(log) + [AbortTimer(old(table)[user].mode.timer)] && leaked == old(leaked)
      ensures user in old(table) && old(table)[user].mode.Waiting? && old(table)[user].handle.projectId != project ==>
        (stopped.Err? ==>
          r == Err(OtherFrom(stopped.error)) && table == old(table) - {user} && log == old(log) + EndEffects(old(table)[user], false) &&
          leaked == old(leaked) + {old(table)[user].handle.containerId}) &&
        (stopped.Ok? ==> var a := CreateSteps(project, username, repoName, accessToken, refreshToken, rs);
          r == a.result && table == Install(old(table) - {user}, user, a) && log == old(log) + EndEffects(old(table)[user], true) + a.effects &&
          leaked == old(leaked) + Abandoned(a, rs))
      ensures user !in old(table) ==> var a := CreateSteps(project, username, repoName, accessToken, refreshToken, rs);
        r == a.result && table == Install(old(table), user, a) && log == old(log) + a.effects && leaked == old(leaked) + Abandoned(a, rs)
    {
      if user in table {
        var state := table[user];
        if state.mode.Active? {
          return Err(SessionConflict);
        }
        if state.handle.projectId == project {
          Reactivate(user);
          return Ok(WithTokens("", None));
        }
        r := Replace(user, project, username, repoName, lang, accessToken, refreshToken, stopped, rs);
        return;
      }
      r := CreateSession(user, project, username, repoName, lang, accessToken, refreshToken, rs);
    }
  }
}
