/**
  The distributed task registry (tasks.py): a liveness key per task with a time to live, a hash
  from task to item, and a set of tasks per item.  Pipelines are not transactions, so each Redis
  command is one atomic step and the commands of different callers interleave freely.
 */
module TaskRegistry {
  import opened Prelude

  type TaskId = string
  type ItemId = string

  // ---------- Redis and its commands ----------

  datatype Redis = Redis(
    live: set<TaskId>,                // liveness keys that exist
    hash: map<TaskId, ItemId>,        // "" for a task without an item
    index: set<(ItemId, TaskId)>,     // members of the per-item sets
    legacyStreams: set<TaskId>,
    streams: set<TaskId>)

  datatype Command =
    | SetLive(task: TaskId)
    | HSet(task: TaskId, item: ItemId)
    | SAdd(item: ItemId, task: TaskId)
    | Expire(task: TaskId)            // refreshes the time to live of an existing key
    | DelLive(task: TaskId)
    | HDel(task: TaskId)
    | HDelStream(task: TaskId)
    | DelStream(task: TaskId)
    | SRem(item: ItemId, task: TaskId)

  function Exec(c: Command, r: Redis): Redis {
    match c
    case SetLive(t) => r.(live := r.live + {t})
    case HSet(t, item) => r.(hash := r.hash[t := item])
    case SAdd(item, t) => r.(index := r.index + {(item, t)})
    case Expire(t) => r
    case DelLive(t) => r.(live := r.live - {t})
    case HDel(t) => r.(hash := r.hash - {t})
    case HDelStream(t) => r.(legacyStreams := r.legacyStreams - {t})
    case DelStream(t) => r.(streams := r.streams - {t})
    case SRem(item, t) => r.(index := r.index - {(item, t)})
  }

  function Run(cs: seq<Command>, r: Redis): Redis {
    if cs == [] then r else Run(cs[1..], Exec(cs[0], r))
  }

  /** An absent item and "" are both falsy. */
  function ItemOr(item: Option<ItemId>): ItemId {
    if item.Some? then item.value else ""
  }

  function SaveCommands(t: TaskId, item: Option<ItemId>): seq<Command> {
    [SetLive(t), HSet(t, ItemOr(item))] + if ItemOr(item) != "" then [SAdd(ItemOr(item), t)] else []
  }

  function CleanupCommands(t: TaskId, item: Option<ItemId>): seq<Command> {
    [DelLive(t), HDel(t), HDelStream(t), DelStream(t)] + if ItemOr(item) != "" then [SRem(ItemOr(item), t)] else []
  }

  // ---------- Cleanups may overlap ----------

  predicate IsDelete(c: Command) {
    c.DelLive? || c.HDel? || c.HDelStream? || c.DelStream? || c.SRem?
  }

  /** What is left once every delete of a set has run. */
  ghost function Erase(cs: set<Command>, r: Redis): Redis {
    Redis(
      set t | t in r.live && DelLive(t) !in cs,
      map t | t in r.hash && HDel(t) !in cs :: r.hash[t],
      set p | p in r.index && SRem(p.0, p.1) !in cs,
      set t | t in r.legacyStreams && HDelStream(t) !in cs,
      set t | t in r.streams && DelStream(t) !in cs)
  }

  lemma EraseStep(c: Command, cs: set<Command>, r: Redis)
    requires IsDelete(c)
    ensures Erase(cs, Exec(c, r)) == Erase({c} + cs, r)
  {
    var a, b := Erase(cs, Exec(c, r)), Erase({c} + cs, r);
    match c
    case DelLive(_) => assert a.live == b.live;
    case HDel(_) => assert a.hash == b.hash;
    case HDelStream(_) => assert a.legacyStreams == b.legacyStreams;
    case DelStream(_) => assert a.streams == b.streams;
    case SRem(_, _) => assert a.index == b.index;
  }

  lemma {:induction false} RunErases(cs: seq<Command>, r: Redis)
    requires forall c :: c in cs ==> IsDelete(c)
    ensures Run(cs, r) == Erase((set c | c in cs), r)
  {
    if cs != [] {
      RunErases(cs[1..], Exec(cs[0], r));
      var rest := set c | c in cs[1..];
      assert (set c | c in cs) == {cs[0]} + rest;
      EraseStep(cs[0], rest, r);
    }
  }

  /** What one cleanup does. */
  function CleanedUp(t: TaskId, item: Option<ItemId>, r: Redis): Redis {
    Redis(r.live - {t}, r.hash - {t}, if ItemOr(item) != "" then r.index - {(ItemOr(item), t)} else r.index,
          r.legacyStreams - {t}, r.streams - {t})
  }

  lemma CleanupErases(t: TaskId, item: Option<ItemId>, r: Redis)
    ensures Run(CleanupCommands(t, item), r) == CleanedUp(t, item, r)
  {
    var cs := CleanupCommands(t, item);
    var r1 := Exec(cs[0], r);
    var r2 := Exec(cs[1], r1);
    var r3 := Exec(cs[2], r2);
    var r4 := Exec(cs[3], r3);
    RunTail(cs, 0, r);
    RunTail(cs, 1, r1);
    RunTail(cs, 2, r2);
    RunTail(cs, 3, r3);
    assert cs[0..] == cs;
    if ItemOr(item) != "" {
      RunTail(cs, 4, r4);
      assert cs[5..] == [];
    } else {
      assert cs[4..] == [];
    }
  }

  lemma RunTail(cs: seq<Command>, k: nat, r: Redis)
    requires k < |cs|
    ensures Run(cs[k..], r) == Run(cs[k + 1..], Exec(cs[k], r))
  {
    assert cs[k..][1..] == cs[k + 1..];
  }

  /** Order and repetition of deletes do not matter. */
  lemma SameDeletesSameState(a: seq<Command>, b: seq<Command>, r: Redis)
    requires forall c :: c in b ==> IsDelete(c)
    requires forall c :: c in a <==> c in b
    ensures Run(a, r) == Run(b, r)
  {
    RunErases(a, r);
    RunErases(b, r);
    assert (set c | c in a) == (set c | c in b);
  }

  lemma CleanupWithoutItem(t: TaskId, item: Option<ItemId>, c: Command)
    requires c in CleanupCommands(t, None)
    ensures c in CleanupCommands(t, item)
  {
    assert CleanupCommands(t, item)[..4] == CleanupCommands(t, None);
  }

  /** An interleaving of two sequences, the second within the first, has the members of the first. */
  lemma InterleavingMembers<T>(cs: seq<T>, one: seq<T>, two: seq<T>, c: T)
    requires multiset(cs) == multiset(one) + multiset(two) && (c in two ==> c in one)
    ensures c in cs <==> c in one
  {
    assert c in cs <==> c in multiset(cs);
  }

  /** The item that a cleanup no longer knows only saves it a delete. */
  lemma CleanupWithin(t: TaskId, item: Option<ItemId>, other: Option<ItemId>, c: Command)
    requires other == item || other == None
    requires c in CleanupCommands(t, other)
    ensures c in CleanupCommands(t, item)
  {
    if other == None {
      CleanupWithoutItem(t, item, c);
    }
  }

  lemma CleanupDeletes(t: TaskId, item: Option<ItemId>, c: Command)
    requires c in CleanupCommands(t, item)
    ensures IsDelete(c)
  {
  }

  /**
    Any interleaving of two cleanups of a task, one of which may no longer know the item, ends in
    the state that one cleanup alone produces.
   */
  lemma OverlappingCleanups(cs: seq<Command>, t: TaskId, item: Option<ItemId>, other: Option<ItemId>, r: Redis)
    requires other == item || other == None
    requires multiset(cs) == multiset(CleanupCommands(t, item)) + multiset(CleanupCommands(t, other))
    ensures Run(cs, r) == Run(CleanupCommands(t, item), r)
  {
    forall c
      ensures c in CleanupCommands(t, other) ==> c in CleanupCommands(t, item)
      ensures c in CleanupCommands(t, item) ==> IsDelete(c)
    {
      if c in CleanupCommands(t, other) {
        CleanupWithin(t, item, other, c);
      }
      if c in CleanupCommands(t, item) {
        CleanupDeletes(t, item, c);
      }
    }
    SameWhenInterleaved(cs, CleanupCommands(t, item), CleanupCommands(t, other), r);
  }

  lemma SameWhenInterleaved(cs: seq<Command>, one: seq<Command>, two: seq<Command>, r: Redis)
    requires multiset(cs) == multiset(one) + multiset(two)
    requires forall c :: c in two ==> c in one
    requires forall c :: c in one ==> IsDelete(c)
    ensures Run(cs, r) == Run(one, r)
  {
    forall c
      ensures c in cs <==> c in one
    {
      InterleavingMembers(cs, one, two, c);
    }
    SameDeletesSameState(cs, one, r);
  }

  // ---------- The protocol ----------

  /** Callers in progress.  `pending` holds the commands of a pipeline not yet executed. */
  datatype Proc =
    | Saving(task: TaskId, item: Option<ItemId>, pending: seq<Command>)
    | Cleaning(task: TaskId, pending: seq<Command>)
    | Beating(pending: seq<Command>)
      // ids as first read, EXISTS replies so far, ids already dealt with, cleanup under way
    | Listing(item: Option<ItemId>, ids: seq<TaskId>, alive: seq<bool>, next: nat, pruning: bool, pending: seq<Command>)

  /**
    Redis and its history: tasks ever saved, tasks whose liveness key ever existed, keys that ran out,
    keys that an explicit cleanup deleted, and what was ever put in the hash and the per-item sets.
   */
  datatype Store = Store(
    redis: Redis,
    saved: set<TaskId>,
    everLive: set<TaskId>,
    expired: set<TaskId>,
    cleaned: set<TaskId>,
    hashed: set<TaskId>,
    indexed: set<(ItemId, TaskId)>)

  datatype State = State(store: Store, procs: map<nat, Proc>)

  datatype Step =
    | StartSave(pid: nat, task: TaskId, item: Option<ItemId>)
    | StartCleanup(pid: nat, task: TaskId, item: Option<ItemId>)
    | StartHeartbeat(pid: nat, tasks: seq<TaskId>)
    | StartList(pid: nat, item: Option<ItemId>, ids: seq<TaskId>)
    | RunCommand(pid: nat)
    | CheckNext(pid: nat)
    | KeepNext(pid: nat)
    | PruneNext(pid: nat)
    | DonePruning(pid: nat)
    | Timeout(task: TaskId)

  function Beats(tasks: seq<TaskId>): seq<Command> {
    seq(|tasks|, k requires 0 <= k < |tasks| => Expire(tasks[k]))
  }

  /** Is t in the index that a lister of `item` reads? */
  predicate InIndex(r: Redis, item: Option<ItemId>, t: TaskId) {
    if item.Some? then (item.value, t) in r.index else t in r.hash
  }

  predicate Enabled(s: State, step: Step) {
    match step
    case StartSave(pid, t, _) => pid !in s.procs && t !in s.store.saved
    case StartCleanup(pid, _, _) => pid !in s.procs
    case StartHeartbeat(pid, _) => pid !in s.procs
    case StartList(pid, item, ids) => pid !in s.procs && forall t :: t in ids ==> InIndex(s.store.redis, item, t)
    case RunCommand(pid) => pid in s.procs && s.procs[pid].pending != []
    case CheckNext(pid) => pid in s.procs && s.procs[pid].Listing? && |s.procs[pid].alive| < |s.procs[pid].ids|
    case KeepNext(pid) => pid in s.procs && AtNext(s.procs[pid]) && s.procs[pid].alive[s.procs[pid].next]
    case PruneNext(pid) => pid in s.procs && AtNext(s.procs[pid]) && !s.procs[pid].alive[s.procs[pid].next]
    case DonePruning(pid) =>
      pid in s.procs && s.procs[pid].Listing? && s.procs[pid].pruning && s.procs[pid].pending == []
    case Timeout(t) => t in s.store.redis.live
  }

  /** All replies are in and the lister looks at the next id. */
  predicate AtNext(p: Proc) {
    p.Listing? && |p.alive| == |p.ids| && p.next < |p.ids| && !p.pruning
  }

  /** The item a lister cleans up with: its own, or what the hash says now. */
  function PruneItem(r: Redis, p: Proc): Option<ItemId>
    requires AtNext(p)
  {
    if p.item.Some? then p.item
    else if p.ids[p.next] in r.hash then Some(r.hash[p.ids[p.next]])
    else None
  }

  function Pop(p: Proc): Proc
    requires p.pending != []
  {
    p.(pending := p.pending[1..])
  }

  /** One command of a pipeline; `explicit` when the pipeline is a cleanup that somebody asked for. */
  function Effect(st: Store, c: Command, explicit: bool): Store {
    st.(redis := Exec(c, st.redis),
        everLive := if c.SetLive? then st.everLive + {c.task} else st.everLive,
        cleaned := if c.DelLive? && explicit then st.cleaned + {c.task} else st.cleaned,
        hashed := if c.HSet? then st.hashed + {c.task} else st.hashed,
        indexed := if c.SAdd? then st.indexed + {(c.item, c.task)} else st.indexed)
  }

  /** What a step of process `pid` makes of it. */
  function NextProc(s: State, step: Step): Proc
    requires Enabled(s, step) && !step.Timeout?
  {
    match step
    case StartSave(pid, t, item) => Saving(t, item, SaveCommands(t, item))
    case StartCleanup(pid, t, item) => Cleaning(t, CleanupCommands(t, item))
    case StartHeartbeat(pid, tasks) => Beating(Beats(tasks))
    case StartList(pid, item, ids) => Listing(item, ids, [], 0, false, [])
    case RunCommand(pid) => Pop(s.procs[pid])
    case CheckNext(pid) =>
      var p := s.procs[pid];
      p.(alive := p.alive + [p.ids[|p.alive|] in s.store.redis.live])
    case KeepNext(pid) => s.procs[pid].(next := s.procs[pid].next + 1)
    case PruneNext(pid) =>
      var p := s.procs[pid];
      p.(pruning := true, pending := CleanupCommands(p.ids[p.next], PruneItem(s.store.redis, p)))
    case DonePruning(pid) => s.procs[pid].(pruning := false, next := s.procs[pid].next + 1)
  }

  function NextStore(s: State, step: Step): Store
    requires Enabled(s, step)
  {
    match step
    case StartSave(_, t, _) => s.store.(saved := s.store.saved + {t})
    case RunCommand(pid) => Effect(s.store, s.procs[pid].pending[0], s.procs[pid].Cleaning?)
    case Timeout(t) =>
      s.store.(redis := s.store.redis.(live := s.store.redis.live - {t}), expired := s.store.expired + {t})
    case _ => s.store
  }

  function Next(s: State, step: Step): State
    requires Enabled(s, step)
  {
    State(NextStore(s, step), if step.Timeout? then s.procs else s.procs[step.pid := NextProc(s, step)])
  }

  const INITIAL := State(Store(Redis({}, map[], {}, {}, {}), {}, {}, {}, {}, {}, {}), map[])

  // ---------- What every reachable state satisfies ----------

  /** A save runs its commands in order, and what it has not run has never been run for its task. */
  ghost predicate SaveOk(st: Store, p: Proc)
    requires p.Saving?
  {
    var all := SaveCommands(p.task, p.item);
    p.task in st.saved &&
    |p.pending| <= |all| && p.pending == all[|all| - |p.pending|..] &&
    (|p.pending| == |all| ==> p.task !in st.everLive) &&
    (|p.pending| < |all| ==> p.task in st.everLive) &&
    (|p.pending| >= |all| - 1 ==> p.task !in st.hashed) &&
    (ItemOr(p.item) != "" && p.pending != [] ==> forall pair :: pair in st.indexed ==> pair.1 != p.task)
  }

  /** What a lister read was there, what it found dead is dead, what it dealt with is gone. */
  ghost predicate ListOk(st: Store, p: Proc)
    requires p.Listing?
  {
    |p.alive| <= |p.ids| && p.next <= |p.ids| &&
    (p.next > 0 || p.pruning ==> |p.alive| == |p.ids|) &&
    (p.pruning ==> p.next < |p.ids| && !p.alive[p.next]) &&
    (!p.pruning ==> p.pending == []) &&
    (forall t :: t in p.ids ==> t in st.everLive && if p.item.Some? then (p.item.value, t) in st.indexed else t in st.hashed) &&
    (forall k :: 0 <= k < |p.alive| && !p.alive[k] ==> p.ids[k] !in st.redis.live) &&
    (forall k :: 0 <= k < p.next && !p.alive[k] ==> !InIndex(st.redis, p.item, p.ids[k])) &&
    (p.pruning ==>
       (forall c :: c in p.pending ==> IsDelete(c) && c.task == p.ids[p.next]) &&
       (InIndex(st.redis, p.item, p.ids[p.next]) ==>
          (if p.item.Some? then SRem(p.item.value, p.ids[p.next]) else HDel(p.ids[p.next])) in p.pending))
  }

  ghost predicate ProcOk(st: Store, p: Proc) {
    match p
    case Saving(_, _, _) => SaveOk(st, p)
    case Cleaning(t, pending) => forall c :: c in pending ==> IsDelete(c) && c.task == t
    case Beating(pending) => forall c :: c in pending ==> c.Expire?
    case Listing(_, _, _, _, _, _) => ListOk(st, p)
  }

  /** Whatever is indexed had a liveness key first, and a key only goes by expiry or explicit cleanup. */
  ghost predicate StoreOk(st: Store) {
    st.redis.hash.Keys <= st.hashed <= st.everLive <= st.saved &&
    st.redis.index <= st.indexed &&
    (forall p :: p in st.indexed ==> p.1 in st.everLive && p.0 != "") &&
    st.redis.live <= st.everLive <= st.redis.live + st.expired + st.cleaned
  }

  ghost predicate SavesApart(procs: map<nat, Proc>) {
    forall i, j :: i in procs && j in procs && procs[i].Saving? && procs[j].Saving? && i != j ==>
      procs[i].task != procs[j].task
  }

  ghost predicate Inv(s: State) {
    StoreOk(s.store) && SavesApart(s.procs) && forall pid :: pid in s.procs ==> ProcOk(s.store, s.procs[pid])
  }

  lemma InvInitially()
    ensures Inv(INITIAL)
  {
  }

  // ---------- One command ----------

  /** Who may run command c next: the save of that task at the right place, or a delete or refresh. */
  ghost predicate MayRun(st: Store, p: Proc, c: Command) {
    (c.SetLive? || c.HSet? || c.SAdd? ==> p.Saving? && c.task == p.task) &&
    (p.Saving? ==>
       c.task == p.task && (c.SetLive? <==> |p.pending| == |SaveCommands(p.task, p.item)|) &&
       (c.HSet? <==> |p.pending| == |SaveCommands(p.task, p.item)| - 1) &&
       (c.SAdd? <==> |p.pending| == |SaveCommands(p.task, p.item)| - 2) && (c.SAdd? ==> c.item == ItemOr(p.item) != "")) &&
    (p.Listing? ==> p.pruning && p.next < |p.ids| && c.task == p.ids[p.next] && c.task !in st.redis.live) &&
    (p.Beating? ==> c.Expire?)
  }

  lemma HeadMayRun(st: Store, p: Proc)
    requires ProcOk(st, p) && p.pending != []
    ensures MayRun(st, p, p.pending[0])
  {
    assert p.pending[0] in p.pending;
    if p.Saving? {
      var all := SaveCommands(p.task, p.item);
      assert p.pending[0] == all[|all| - |p.pending|];
    }
  }

  lemma CommandKeepsStore(st: Store, p: Proc)
    requires StoreOk(st) && ProcOk(st, p) && p.pending != []
    ensures StoreOk(Effect(st, p.pending[0], p.Cleaning?))
  {
    var c := p.pending[0];
    HeadMayRun(st, p);
    if p.Listing? && c.DelLive? {
      // a lister only deletes keys that it found gone, and a key that is gone stays gone
      assert st.redis.live - {c.task} == st.redis.live;
    }
  }

  lemma CommandKeepsSave(st: Store, p: Proc, c: Command, explicit: bool)
    requires p.Saving? && SaveOk(st, p) && (c.SetLive? || c.HSet? || c.SAdd? ==> c.task != p.task)
    ensures SaveOk(Effect(st, c, explicit), p)
  {
    var st' := Effect(st, c, explicit);
    assert p.task in st'.everLive <==> p.task in st.everLive;
    assert p.task in st'.hashed <==> p.task in st.hashed;
    forall pair | pair in st'.indexed && pair.1 == p.task
      ensures pair in st.indexed
    {
    }
  }

  lemma CommandKeepsList(st: Store, p: Proc, runner: Proc)
    requires p.Listing? && ListOk(st, p) && ProcOk(st, runner) && runner.pending != []
    ensures ListOk(Effect(st, runner.pending[0], runner.Cleaning?), p)
  {
    var c := runner.pending[0];
    var st' := Effect(st, c, runner.Cleaning?);
    HeadMayRun(st, runner);
    assert st.everLive <= st'.everLive && st.hashed <= st'.hashed && st.indexed <= st'.indexed;
    forall t | t in p.ids && t !in st.redis.live
      ensures t !in st'.redis.live
    {
      assert c.SetLive? ==> c.task !in st.everLive;
    }
    forall t | t in p.ids && !InIndex(st.redis, p.item, t)
      ensures !InIndex(st'.redis, p.item, t)
    {
      assert c.HSet? ==> c.task !in st.hashed;
      assert c.SAdd? ==> forall pair :: pair in st.indexed ==> pair.1 != c.task;
    }
    assert c.HSet? || c.SAdd? || forall t :: InIndex(st'.redis, p.item, t) ==> InIndex(st.redis, p.item, t);
  }

  lemma SaveAdvances(st: Store, p: Proc)
    requires p.Saving? && SaveOk(st, p) && p.pending != [] && StoreOk(st)
    ensures SaveOk(Effect(st, p.pending[0], false), Pop(p))
  {
    HeadMayRun(st, p);
  }

  lemma ListAdvances(st: Store, p: Proc)
    requires p.Listing? && ListOk(st, p) && p.pending != []
    ensures ListOk(Effect(st, p.pending[0], false), Pop(p))
  {
    HeadMayRun(st, p);
    CommandKeepsList(st, p, p);
    assert p.pending == [p.pending[0]] + p.pending[1..];
  }

  lemma InvRun(s: State, pid: nat)
    requires Inv(s) && Enabled(s, RunCommand(pid))
    ensures Inv(Next(s, RunCommand(pid)))
  {
    var s' := Next(s, RunCommand(pid));
    CommandKeepsStore(s.store, s.procs[pid]);
    forall q | q in s'.procs
      ensures ProcOk(s'.store, s'.procs[q])
    {
      CommandKeepsProc(s, pid, q);
    }
  }

  lemma CommandKeepsProc(s: State, pid: nat, q: nat)
    requires Inv(s) && Enabled(s, RunCommand(pid)) && q in s.procs
    ensures ProcOk(Next(s, RunCommand(pid)).store, Next(s, RunCommand(pid)).procs[q])
  {
    var st, p := s.store, s.procs[pid];
    assert ProcOk(st, s.procs[q]) && ProcOk(st, p);
    HeadMayRun(st, p);
    if q != pid {
      if s.procs[q].Saving? {
        CommandKeepsSave(st, s.procs[q], p.pending[0], p.Cleaning?);
      } else if s.procs[q].Listing? {
        CommandKeepsList(st, s.procs[q], p);
      }
    } else if p.Saving? {
      SaveAdvances(st, p);
    } else if p.Listing? {
      ListAdvances(st, p);
    }
  }

  // ---------- The other steps ----------

  /** A step that touches one process and, of the store, at most the set of saved tasks. */
  lemma InvLocal(s: State, pid: nat, p: Proc, saved: set<TaskId>)
    requires Inv(s) && s.store.saved <= saved
    requires ProcOk(s.store.(saved := saved), p)
    requires p.Saving? ==> forall q :: q in s.procs && q != pid && s.procs[q].Saving? ==> s.procs[q].task != p.task
    ensures Inv(State(s.store.(saved := saved), s.procs[pid := p]))
  {
    forall q | q in s.procs && q != pid
      ensures ProcOk(s.store.(saved := saved), s.procs[q])
    {
      assert ProcOk(s.store, s.procs[q]);
    }
  }

  lemma InvTimeout(s: State, t: TaskId)
    requires Inv(s) && Enabled(s, Timeout(t))
    ensures Inv(Next(s, Timeout(t)))
  {
    var s' := Next(s, Timeout(t));
    forall q | q in s'.procs
      ensures ProcOk(s'.store, s'.procs[q])
    {
      assert ProcOk(s.store, s.procs[q]);
    }
  }

  lemma InvStart(s: State, step: Step)
    requires Inv(s) && Enabled(s, step)
    requires step.StartSave? || step.StartCleanup? || step.StartHeartbeat? || step.StartList?
    ensures Inv(Next(s, step))
  {
    var p := NextProc(s, step);
    if step.StartSave? {
      assert forall q :: q in s.procs && s.procs[q].Saving? ==> ProcOk(s.store, s.procs[q]);
      var all := SaveCommands(p.task, p.item);
      assert all[|all| - |all|..] == all;
    }
    InvLocal(s, step.pid, p, NextStore(s, step).saved);
  }

  lemma InvList(s: State, step: Step)
    requires Inv(s) && Enabled(s, step)
    requires step.CheckNext? || step.KeepNext? || step.PruneNext? || step.DonePruning?
    ensures Inv(Next(s, step))
  {
    assert ProcOk(s.store, s.procs[step.pid]);
    ListMoves(s, step);
    InvLocal(s, step.pid, NextProc(s, step), s.store.saved);
  }

  lemma ListMoves(s: State, step: Step)
    requires Enabled(s, step) && StoreOk(s.store)
    requires step.CheckNext? || step.KeepNext? || step.PruneNext? || step.DonePruning?
    requires ListOk(s.store, s.procs[step.pid])
    ensures ListOk(s.store, NextProc(s, step))
  {
  }

  lemma InvStep(s: State, step: Step)
    requires Inv(s) && Enabled(s, step)
    ensures Inv(Next(s, step))
  {
    match step
    case RunCommand(pid) => InvRun(s, pid);
    case Timeout(t) => InvTimeout(s, t);
    case StartSave(_, _, _) => InvStart(s, step);
    case StartCleanup(_, _, _) => InvStart(s, step);
    case StartHeartbeat(_, _) => InvStart(s, step);
    case StartList(_, _, _) => InvStart(s, step);
    case _ => InvList(s, step);
  }

  // ---------- Safety over whole runs ----------

  ghost predicate IsRun(s: State, steps: seq<Step>)
    decreases |steps|
  {
    steps == [] || (Enabled(s, steps[0]) && IsRun(Next(s, steps[0]), steps[1..]))
  }

  ghost function After(s: State, steps: seq<Step>): State
    requires IsRun(s, steps)
    decreases |steps|
  {
    if steps == [] then s else After(Next(s, steps[0]), steps[1..])
  }

  lemma {:induction false} InvAlways(s: State, steps: seq<Step>)
    requires Inv(s) && IsRun(s, steps)
    ensures Inv(After(s, steps))
    decreases |steps|
  {
    if steps != [] {
      InvStep(s, steps[0]);
      InvAlways(Next(s, steps[0]), steps[1..]);
    }
  }

  /**
    In no interleaving does a lister prune a task whose key has neither expired nor been deleted by
    an explicit cleanup, nor hold a cleanup command for one.
   */
  lemma ListerOnlyPrunesDead(steps: seq<Step>, pid: nat, c: Command)
    requires IsRun(INITIAL, steps)
    requires var s := After(INITIAL, steps);
             pid in s.procs && s.procs[pid].Listing? && (Enabled(s, PruneNext(pid)) || c in s.procs[pid].pending)
    ensures var p := After(INITIAL, steps).procs[pid]; p.Listing? && p.next < |p.ids|
    ensures var s := After(INITIAL, steps);
            var t := s.procs[pid].ids[s.procs[pid].next];
            t !in s.store.redis.live && t in s.store.expired + s.store.cleaned && (c in s.procs[pid].pending ==> c.task == t)
  {
    InvInitially();
    InvAlways(INITIAL, steps);
    var s := After(INITIAL, steps);
    var p := s.procs[pid];
    assert ProcOk(s.store, p);
    assert p.ids[p.next] in p.ids;
  }

  /** Every dead id that a lister has dealt with is out of the index it read, then and ever after. */
  lemma DeadIdsLeaveTheIndex(steps: seq<Step>, pid: nat, k: nat)
    requires IsRun(INITIAL, steps)
    requires var s := After(INITIAL, steps);
             pid in s.procs && s.procs[pid].Listing? && k < s.procs[pid].next && k < |s.procs[pid].alive| &&
             !s.procs[pid].alive[k]
    ensures var s := After(INITIAL, steps);
            k < |s.procs[pid].ids| && !InIndex(s.store.redis, s.procs[pid].item, s.procs[pid].ids[k])
  {
    InvInitially();
    InvAlways(INITIAL, steps);
    assert ProcOk(After(INITIAL, steps).store, After(INITIAL, steps).procs[pid]);
  }

  /** A liveness key that has gone never comes back, heartbeats and late saves included. */
  lemma {:induction false} GoneStaysGone(before: seq<Step>, steps: seq<Step>, t: TaskId)
    requires IsRun(INITIAL, before) && IsRun(After(INITIAL, before), steps)
    requires var s := After(INITIAL, before); t in s.store.everLive && t !in s.store.redis.live
    ensures t !in After(After(INITIAL, before), steps).store.redis.live
  {
    InvInitially();
    InvAlways(INITIAL, before);
    GoneFrom(After(INITIAL, before), steps, t);
  }

  lemma {:induction false} GoneFrom(s: State, steps: seq<Step>, t: TaskId)
    requires Inv(s) && IsRun(s, steps) && t in s.store.everLive && t !in s.store.redis.live
    ensures t !in After(s, steps).store.redis.live
    decreases |steps|
  {
    if steps != [] {
      var step := steps[0];
      if step.RunCommand? {
        assert ProcOk(s.store, s.procs[step.pid]);
        HeadMayRun(s.store, s.procs[step.pid]);
      }
      InvStep(s, step);
      GoneFrom(Next(s, step), steps[1..], t);
    }
  }

  /** A heartbeat changes no key, index or history. */
  lemma HeartbeatCreatesNothing(steps: seq<Step>, pid: nat)
    requires IsRun(INITIAL, steps)
    requires var s := After(INITIAL, steps);
             pid in s.procs && s.procs[pid].Beating? && s.procs[pid].pending != []
    ensures var s := After(INITIAL, steps);
            Next(s, RunCommand(pid)) == s.(procs := s.procs[pid := Pop(s.procs[pid])])
  {
    InvInitially();
    InvAlways(INITIAL, steps);
    var s := After(INITIAL, steps);
    assert ProcOk(s.store, s.procs[pid]);
    assert s.procs[pid].pending[0] in s.procs[pid].pending;
  }

  /** In every run a lister of the hash takes a dead task out of the set of the item that the hash names. */
  lemma PruningFollowsTheHash(s: State, pid: nat)
    requires Enabled(s, PruneNext(pid)) && s.procs[pid].item == None
    ensures var t := s.procs[pid].ids[s.procs[pid].next];
            t in s.store.redis.hash && s.store.redis.hash[t] != "" ==>
              SRem(s.store.redis.hash[t], t) in Next(s, PruneNext(pid)).procs[pid].pending
  {
    var t := s.procs[pid].ids[s.procs[pid].next];
    if t in s.store.redis.hash && s.store.redis.hash[t] != "" {
      assert Next(s, PruneNext(pid)).procs[pid].pending[4] == SRem(s.store.redis.hash[t], t);
    }
  }

  /** A heartbeat refreshes the key of every task it was given, and sends nothing else. */
  lemma HeartbeatRefreshesAll(s: State, pid: nat, tasks: seq<TaskId>)
    requires Enabled(s, StartHeartbeat(pid, tasks))
    ensures forall c :: c in Next(s, StartHeartbeat(pid, tasks)).procs[pid].pending <==> c.Expire? && c.task in tasks
  {
    var pending := Next(s, StartHeartbeat(pid, tasks)).procs[pid].pending;
    forall t | t in tasks
      ensures Expire(t) in pending
    {
      var k :| 0 <= k < |tasks| && tasks[k] == t;
      assert pending[k] == Expire(t);
    }
  }

  // ---------- The same calls on one client with nobody else active ----------

  lemma SaveEffect(t: TaskId, item: Option<ItemId>, r: Redis)
    ensures Run(SaveCommands(t, item), r) == r.(
              live := r.live + {t},
              hash := r.hash[t := ItemOr(item)],
              index := if ItemOr(item) != "" then r.index + {(ItemOr(item), t)} else r.index)
  {
    var all := SaveCommands(t, item);
    var r1 := Exec(all[0], r);
    var r2 := Exec(all[1], r1);
    assert Run(all, r) == Run(all[1..], r1);
    assert all[1..][0] == all[1] && all[1..][1..] == all[2..];
    assert Run(all[1..], r1) == Run(all[2..], r2);
    if ItemOr(item) != "" {
      assert all[2..] == [SAdd(ItemOr(item), t)];
      assert Run([SAdd(ItemOr(item), t)], r2) == Exec(SAdd(ItemOr(item), t), r2);
    }
  }

  class Client {
    var redis: Redis
    const ttl: nat

    /** No save uses "" as an item. */
    ghost predicate Valid()
      reads this
    {
      forall p :: p in redis.index ==> p.0 != ""
    }

    constructor (ttl: nat)
      ensures Valid() && redis == INITIAL.store.redis && this.ttl == ttl
    {
      redis, this.ttl := INITIAL.store.redis, ttl;
    }

    method Pipeline(commands: seq<Command>)
      modifies this
      ensures redis == Run(commands, old(redis))
    {
      for k := 0 to |commands|
        invariant Run(commands, old(redis)) == Run(commands[k..], redis)
      {
        redis := Exec(commands[k], redis);
      }
    }

    method SaveTask(t: TaskId, item: Option<ItemId>)
      requires Valid()
      modifies this
      ensures Valid()
      ensures redis.live == old(redis).live + {t}
      ensures redis.hash == old(redis).hash[t := if item.Some? then item.value else ""]
      ensures redis.index == old(redis).index + (if item.Some? && item.value != "" then {(item.value, t)} else {})
      ensures redis.streams == old(redis).streams && redis.legacyStreams == old(redis).legacyStreams
    {
      SaveEffect(t, item, redis);
      Pipeline(SaveCommands(t, item));
    }

    method CleanupTask(t: TaskId, item: Option<ItemId>)
      requires Valid()
      modifies this
      ensures Valid() && redis == CleanedUp(t, item, old(redis))
      ensures redis.live == old(redis).live - {t} && redis.hash == old(redis).hash - {t}
      ensures redis.streams == old(redis).streams - {t} && redis.legacyStreams == old(redis).legacyStreams - {t}
      ensures redis.index == old(redis).index - (if item.Some? then {(item.value, t)} else {})
    {
      CleanupErases(t, item, redis);
      Pipeline(CleanupCommands(t, item));
    }

    /** SMEMBERS or HKEYS, in whatever order. */
    method ReadIndex(item: Option<ItemId>) returns (ids: seq<TaskId>)
      ensures forall t :: t in ids <==> InIndex(redis, item, t)
    {
      var rest := if item.Some? then set p | p in redis.index && p.0 == item.value :: p.1 else redis.hash.Keys;
      assert forall t :: t in rest <==> InIndex(redis, item, t) by {
        if item.Some? {
          forall t | (item.value, t) in redis.index
            ensures t in rest
          {
            assert (item.value, t).1 == t;
          }
        }
      }
      ghost var all := rest;
      ids := [];
      while rest != {}
        invariant rest <= all
        invariant forall t :: t in ids <==> t in all && t !in rest
        decreases rest
      {
        var t :| t in rest;
        ids, rest := ids + [t], rest - {t};
      }
    }

    /** Lists the tasks in an index, pruning those whose key is gone; without a TTL it trusts the index. */
    method ListTasks(item: Option<ItemId>) returns (active: seq<TaskId>, ghost gone: set<TaskId>)
      requires Valid()
      modifies this
      ensures Valid()
      // the ids of the item's set, or of the hash, whose keys exist; without a time to live all of them
      ensures forall t :: t in active <==>
                (if item.Some? then (item.value, t) in old(redis).index else t in old(redis).hash) &&
                (ttl == 0 || t in old(redis).live)
      ensures forall t :: t in gone <==>
                (if item.Some? then (item.value, t) in old(redis).index else t in old(redis).hash) && t !in active
      ensures redis.live == old(redis).live && redis.hash == old(redis).hash - gone
      ensures redis.streams == old(redis).streams - gone && redis.legacyStreams == old(redis).legacyStreams - gone
      // each leaves the set of the item listed, or else of the item that the hash named
      ensures forall i, t :: (i, t) in redis.index <==>
                (i, t) in old(redis).index &&
                !(t in gone && if item.Some? then i == item.value else t in old(redis).hash && old(redis).hash[t] == i)
    {
      var ids := ReadIndex(item);
      gone := {};
      if ids == [] || ttl == 0 {
        return ids, {};
      }
      var exist := seq(|ids|, k requires 0 <= k < |ids| reads this => ids[k] in redis.live);
      active := [];
      for k := 0 to |ids|
        invariant Valid() && Pruned(old(redis), redis, item, gone)
        invariant forall t :: t in ids[..k] <==> t in active || t in gone
        invariant forall t :: t in active ==> t in old(redis).live
        invariant forall t :: t in gone ==> t !in old(redis).live
      {
        assert ids[..k + 1] == ids[..k] + [ids[k]];
        if exist[k] {
          active := active + [ids[k]];
        } else {
          var owner := if item.Some? then item else if ids[k] in redis.hash then Some(redis.hash[ids[k]]) else None;
          assert ids[k] in ids;
          PruneStep(old(redis), redis, item, gone, ids[k], owner);
          CleanupTask(ids[k], owner);
          gone := gone + {ids[k]};
        }
      }
      assert ids[..|ids|] == ids;
    }
  }

  /** A task of the hash and the item it is filed under, or any task and the item that is listed. */
  predicate FiledUnder(r: Redis, item: Option<ItemId>, t: TaskId, i: ItemId) {
    if item.Some? then i == item.value else t in r.hash && r.hash[t] == i
  }

  /** `gone` left the hash, the streams and the set each was filed under; nothing else changed. */
  ghost predicate Pruned(r: Redis, r': Redis, item: Option<ItemId>, gone: set<TaskId>) {
    r'.live == r.live - gone &&
    r'.hash == r.hash - gone && r'.streams == r.streams - gone && r'.legacyStreams == r.legacyStreams - gone &&
    forall i, t :: (i, t) in r'.index <==> (i, t) in r.index && !(t in gone && FiledUnder(r, item, t, i))
  }

  lemma PruneStep(r: Redis, r': Redis, item: Option<ItemId>, gone: set<TaskId>, t: TaskId, owner: Option<ItemId>)
    requires Pruned(r, r', item, gone)
    requires owner == if item.Some? then item else if t in r'.hash then Some(r'.hash[t]) else None
    requires forall p :: p in r.index ==> p.0 != ""
    ensures Pruned(r, CleanedUp(t, owner, r'), item, gone + {t})
  {
    var r'' := CleanedUp(t, owner, r');
    assert r''.live == r.live - (gone + {t});
    assert r''.hash == r.hash - (gone + {t});
    assert r''.streams == r.streams - (gone + {t});
    assert r''.legacyStreams == r.legacyStreams - (gone + {t});
  }
}
