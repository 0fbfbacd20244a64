/**
  The persistent client list (internal/token/store.go) over a small file system: the file, its
  .bak and the temporary files.  Save is cut into its system calls; a crash may come between any
  two of them, any call may fail, and a crash in the middle of a write leaves a torn temporary.

  Reading back a completely written file is assumed to give what was written.
*/
module ClientStore {
  import opened Options
  import TokenModel

  type Client = TokenModel.Client

  datatype Content = Complete(clients: seq<Client>) | Unreadable   // empty, torn or otherwise not decodable

  datatype Disk = Disk(main: Option<Content>, bak: Option<Content>, temps: map<int, Content>)

  function Load(file: Option<Content>): Option<seq<Client>> {
    match file
    case Some(Complete(clients)) => Some(clients)
    case _ => None
  }

  /** What NewClientStore finds: the file, else its backup, else nothing. */
  function Recover(d: Disk): Option<seq<Client>> {
    if Load(d.main).Some? then Load(d.main) else Load(d.bak)
  }

  // ----- the system calls of Save -----

  function BackUp(d: Disk, ok: bool): Disk {
    if d.main.Some? && ok then d.(main := None, bak := d.main) else d
  }

  function WriteTemp(d: Disk, temp: int, c: Content): Disk {
    d.(temps := d.temps[temp := c])
  }

  function RenameTemp(d: Disk, temp: int): Disk
    requires temp in d.temps
  {
    d.(main := Some(d.temps[temp]), temps := d.temps - {temp})
  }

  // ----- Saves, failures, crashes and restarts -----

  datatype Progress =
    | Idle
    | Started(save: nat)
    | BackedUp(save: nat)               // the write of the temporary is next, or under way
    | Written(save: nat, temp: int)
    | Renamed(save: nat)                // not yet returned
    | Orphaned(save: nat, temp: int)    // the rename failed; the temporary is removed next

  datatype State = State(
    disk: Disk, progress: Progress,
    begun: seq<seq<Client>>,       // the list each Save was asked to write
    committed: Option<nat>,        // the last Save whose final rename took effect
    succeeded: Option<nat>,        // the last Save that returned success
    failed: set<nat>,              // the Saves that returned an error
    interrupted: set<nat>)         // the Saves that a crash cut short

  datatype Event =
    | BeginSave(clients: seq<Client>)
    | Backup(ok: bool)
    | Write(temp: int)
    | WriteFails(temp: int, leftover: Option<Content>)
    | Rename(ok: bool)
    | RemoveOrphan(ok: bool)
    | Return
    | Crash(torn: Option<int>)     // and restart; a write under way may leave a torn temporary

  function Boot(d: Disk): State {
    State(d, Idle, [], None, None, {}, {})
  }

  /** An event that does not fit the progress of the current Save changes nothing. */
  function Step(s: State, e: Event): State {
    match e
    case BeginSave(clients) =>
      if s.progress.Idle? then s.(progress := Started(|s.begun|), begun := s.begun + [clients]) else s
    case Backup(ok) =>
      if s.progress.Started? then s.(disk := BackUp(s.disk, ok), progress := BackedUp(s.progress.save)) else s
    case Write(temp) =>
      if s.progress.BackedUp? && s.progress.save < |s.begun| then
        s.(disk := WriteTemp(s.disk, temp, Complete(s.begun[s.progress.save])),
           progress := Written(s.progress.save, temp))
      else s
    case WriteFails(temp, leftover) =>
      if s.progress.BackedUp? then
        s.(disk := if leftover.Some? then WriteTemp(s.disk, temp, leftover.value) else s.disk,
           progress := Idle, failed := s.failed + {s.progress.save})
      else s
    case Rename(ok) =>
      if s.progress.Written? && s.progress.temp in s.disk.temps then
        if ok then
          s.(disk := RenameTemp(s.disk, s.progress.temp), progress := Renamed(s.progress.save),
             committed := Some(s.progress.save))
        else
          s.(progress := Orphaned(s.progress.save, s.progress.temp))
      else s
    case RemoveOrphan(ok) =>
      if s.progress.Orphaned? then
        s.(disk := if ok then s.disk.(temps := s.disk.temps - {s.progress.temp}) else s.disk,
           progress := Idle, failed := s.failed + {s.progress.save})
      else s
    case Return =>
      if s.progress.Renamed? then s.(progress := Idle, succeeded := Some(s.progress.save)) else s
    case Crash(torn) =>
      s.(disk := if s.progress.BackedUp? && torn.Some? then WriteTemp(s.disk, torn.value, Unreadable) else s.disk,
         progress := Idle,
         interrupted := s.interrupted + (if s.progress.Idle? then {} else {s.progress.save}))
  }

  function Run(s: State, events: seq<Event>): State
    decreases |events|
  {
    if events == [] then s else Step(Run(s, events[..|events| - 1]), events[|events| - 1])
  }

  // ----- the invariant -----

  /** The backup call would overwrite the only readable copy with an unreadable file. */
  predicate BackupWouldLose(d: Disk) {
    d.main == Some(Unreadable) && Load(d.bak).Some?
  }

  predicate InProgress(p: Progress, save: nat) {
    !p.Idle? && p.save == save
  }

  function Expected(initial: Option<seq<Client>>, s: State): Option<seq<Client>>
    requires s.committed.Some? ==> s.committed.value < |s.begun|
  {
    if s.committed.Some? then Some(s.begun[s.committed.value]) else initial
  }

  ghost predicate HistorySound(s: State) {
    && (!s.progress.Idle? ==> s.progress.save == |s.begun| - 1 && s.progress.save !in s.failed)
    && (forall k | k in s.failed :: k < |s.begun|)
    && (s.committed.Some? ==> s.committed.value < |s.begun| && s.committed.value !in s.failed)
    && (s.succeeded.Some? ==> s.committed.Some? && s.succeeded.value <= s.committed.value)
    && (s.progress.Renamed? <==> !s.progress.Idle? && s.committed == Some(s.progress.save))
    && (s.committed.Some? && s.succeeded != s.committed ==>
          InProgress(s.progress, s.committed.value) || s.committed.value in s.interrupted)
  }

  ghost predicate Inv(initial: Option<seq<Client>>, s: State) {
    && HistorySound(s)
    && !BackupWouldLose(s.disk)
    && (s.progress.Written? ==>
          && s.progress.temp in s.disk.temps
          && s.disk.temps[s.progress.temp] == Complete(s.begun[s.progress.save]))
    && Recover(s.disk) == Expected(initial, s)
  }

  lemma StepKeepsInv(initial: Option<seq<Client>>, s: State, e: Event)
    requires Inv(initial, s)
    ensures Inv(initial, Step(s, e))
  {
  }

  lemma {:induction false} RunKeepsInv(initial: Option<seq<Client>>, s: State, events: seq<Event>)
    requires Inv(initial, s)
    ensures Inv(initial, Run(s, events))
    decreases |events|
  {
    if events != [] {
      RunKeepsInv(initial, s, events[..|events| - 1]);
      StepKeepsInv(initial, Run(s, events[..|events| - 1]), events[|events| - 1]);
    }
  }

  // ----- the promise -----

  /** Recovery from this very moment yields the last committed Save, or what there was at the start. */
  ghost predicate RecoversCommitted(initial: Disk, s: State) {
    && (s.committed.Some? ==> s.committed.value < |s.begun|)
    && Recover(s.disk) == Expected(Recover(initial), s)
  }

  ghost predicate AlwaysRecovers(initial: Disk) {
    forall events :: RecoversCommitted(initial, Run(Boot(initial), events))
  }

  /**
    Starting from a given disk, every crash point of every sequence of Saves recovers the last committed
    list, exactly when the disk does not start with an unreadable file beside a readable backup.
  */
  lemma CrashConsistentExactlyWhen(initial: Disk)
    ensures AlwaysRecovers(initial) <==> !BackupWouldLose(initial)
  {
    if BackupWouldLose(initial) {
      var events := [BeginSave([]), Backup(true)];
      RunLast(Boot(initial), [], BeginSave([]));
      RunLast(Boot(initial), [BeginSave([])], Backup(true));
      assert [] + [BeginSave([])] == [BeginSave([])] && [BeginSave([])] + [Backup(true)] == events;
      assert !RecoversCommitted(initial, Run(Boot(initial), events));
    } else {
      forall events ensures RecoversCommitted(initial, Run(Boot(initial), events)) {
        RunKeepsInv(Recover(initial), Boot(initial), events);
      }
    }
  }

  /**
    Which Save that is: never one that returned an error, never one older than the last that returned
    success, and if it is a later one, then it is in progress or a crash cut it short.
  */
  lemma CommittedIsLastCompletedOrInterrupted(initial: Disk, events: seq<Event>)
    requires !BackupWouldLose(initial)
    ensures var s := Run(Boot(initial), events);
            && RecoversCommitted(initial, s)
            && (s.succeeded.Some? ==> s.committed.Some? && s.succeeded.value <= s.committed.value)
            && (s.committed.Some? ==> s.committed.value !in s.failed)
            && (s.committed.Some? && s.succeeded != s.committed ==>
                  InProgress(s.progress, s.committed.value) || s.committed.value in s.interrupted)
  {
    RunKeepsInv(Recover(initial), Boot(initial), events);
  }

  /** A Save that returns success is what recovery yields from then on, until a later Save commits. */
  lemma {:induction false} SuccessIsRecovered(initial: Disk, before: seq<Event>, after: seq<Event>)
    requires !BackupWouldLose(initial)
    requires Run(Boot(initial), before).progress.Renamed?
    ensures var s := Run(Boot(initial), before);
            var s' := Run(Step(s, Return), after);
            && Step(s, Return).succeeded == Some(s.progress.save) && s.progress.save < |s.begun|
            && (s'.committed == s.committed ==> Recover(s'.disk) == Some(s.begun[s.progress.save]))
  {
    RunKeepsInv(Recover(initial), Boot(initial), before);
    var s := Run(Boot(initial), before);
    StepKeepsInv(Recover(initial), s, Return);
    RunKeepsInv(Recover(initial), Step(s, Return), after);
    BegunOnlyGrows(Step(s, Return), after);
  }

  lemma {:induction false} BegunOnlyGrows(s: State, events: seq<Event>)
    ensures s.begun <= Run(s, events).begun
    decreases |events|
  {
    if events != [] {
      BegunOnlyGrows(s, events[..|events| - 1]);
    }
  }

  // ----- the registry and its snapshots -----

  /** A snapshot lists every registered client once, in whatever order. */
  ghost predicate Lists(clients: seq<Client>, registry: map<string, Client>) {
    && (forall i | 0 <= i < |clients| :: clients[i].id in registry && registry[clients[i].id] == clients[i])
    && (forall id | id in registry :: exists i :: 0 <= i < |clients| && clients[i].id == id)
    && |clients| == |registry|
  }

  function Registered(registry: map<string, Client>, clients: seq<Client>): map<string, Client>
    decreases |clients|
  {
    if clients == [] then registry
    else
      var c := clients[|clients| - 1];
      Registered(registry, clients[..|clients| - 1])[c.id := c]
  }

  lemma {:induction false} RegisteredHas(registry: map<string, Client>, clients: seq<Client>, id: string)
    ensures id in Registered(registry, clients) <==>
            id in registry || exists i :: 0 <= i < |clients| && clients[i].id == id
    ensures id in Registered(registry, clients) ==>
              || (id in registry && Registered(registry, clients)[id] == registry[id])
              || (exists i :: 0 <= i < |clients| && clients[i].id == id
                              && Registered(registry, clients)[id] == clients[i])
    ensures (exists i :: 0 <= i < |clients| && clients[i].id == id) ==>
              exists i :: 0 <= i < |clients| && clients[i].id == id && Registered(registry, clients)[id] == clients[i]
    decreases |clients|
  {
    if clients != [] {
      var k := |clients| - 1;
      RegisteredHas(registry, clients[..k], id);
      if exists i :: 0 <= i < |clients| && clients[i].id == id {
        var i :| 0 <= i < |clients| && clients[i].id == id;
        if clients[k].id == id {
          assert clients[k].id == id && Registered(registry, clients)[id] == clients[k];
        } else {
          assert clients[..k][i].id == id;
          var j :| 0 <= j < k && clients[..k][j].id == id && Registered(registry, clients[..k])[id] == clients[..k][j];
          assert clients[j].id == id && Registered(registry, clients)[id] == clients[j];
        }
      }
    }
  }

  /** Saving a snapshot and registering what is read back restores the registry exactly. */
  lemma SnapshotRoundTrip(registry: map<string, Client>, clients: seq<Client>)
    requires Lists(clients, registry)
    ensures Registered(map[], clients) == registry
  {
    forall id ensures id in Registered(map[], clients) <==> id in registry
              ensures id in registry ==> Registered(map[], clients)[id] == registry[id]
    {
      RegisteredHas(map[], clients, id);
    }
  }

  datatype WriteOutcome = WriteOk | WriteError(leftover: Option<Content>)

  class Store {
    var main: Option<Content>
    var bak: Option<Content>
    var temps: map<int, Content>
    var registry: map<string, Client>   // the manager's clients

    function View(): Disk
      reads this
    {
      Disk(main, bak, temps)
    }

    /** NewClientStore: recovery from the files, then one RegisterClient after another. */
    constructor (d: Disk, registry: map<string, Client>)
      ensures View() == d
      ensures this.registry == match Recover(d)
                               case None => registry
                               case Some(clients) => Registered(registry, clients)
    {
      main, bak, temps := d.main, d.bak, d.temps;
      this.registry := registry;
      new;
      var found := Load(main);
      if found.None? {
        found := Load(bak);
        if found.None? {
          return;
        }
      }
      var clients := found.value;
      for i := 0 to |clients|
        invariant View() == d
        invariant this.registry == Registered(registry, clients[..i])
      {
        assert clients[..i + 1][..i] == clients[..i];
        this.registry := this.registry[clients[i].id := clients[i]];
      }
      assert clients[..|clients|] == clients;
    }

    /** The manager's snapshot: a loop over the registry in an arbitrary order. */
    method Clients() returns (clients: seq<Client>)
      requires forall id | id in registry :: registry[id].id == id
      ensures Lists(clients, registry)
    {
      clients := [];
      var todo := registry.Keys;
      while todo != {}
        invariant todo <= registry.Keys && |clients| + |todo| == |registry.Keys|
        invariant forall i | 0 <= i < |clients| :: clients[i].id in registry && registry[clients[i].id] == clients[i]
        invariant forall id | id in registry && id !in todo :: exists i :: 0 <= i < |clients| && clients[i].id == id
      {
        var id :| id in todo;
        ghost var before := clients;
        clients := clients + [registry[id]];
        todo := todo - {id};
        assert clients[|before|].id == id;
        forall other | other in registry && other !in todo && other != id
          ensures exists i :: 0 <= i < |clients| && clients[i].id == other
        {
          var i :| 0 <= i < |before| && before[i].id == other;
          assert clients[i].id == other;
        }
      }
    }

    /** One Save that is not cut short, with the outcome of each system call as a parameter. */
    method Save(temp: int, backupOk: bool, write: WriteOutcome, renameOk: bool, removeOk: bool) returns (ok: bool)
      requires forall id | id in registry :: registry[id].id == id
      modifies this`main, this`bak, this`temps
      ensures ok <==> write.WriteOk? && renameOk
      ensures exists clients :: Lists(clients, registry) &&
                View() == Run(Boot(old(View())), SaveEvents(clients, temp, backupOk, write, renameOk, removeOk)).disk
      ensures ok ==> Recover(View()).Some? && Registered(map[], Recover(View()).value) == registry
      ensures !ok && !BackupWouldLose(old(View())) ==> Recover(View()) == Recover(old(View()))
    {
      var data := Clients();
      SnapshotRoundTrip(registry, data);
      SaveRecovers(View(), data, temp, backupOk, write, renameOk, removeOk);
      ok := SaveSnapshot(data, temp, backupOk, write, renameOk, removeOk);
    }

    method SaveSnapshot(data: seq<Client>, temp: int, backupOk: bool, write: WriteOutcome,
                        renameOk: bool, removeOk: bool)
      returns (ok: bool)
      modifies this`main, this`bak, this`temps
      ensures ok <==> write.WriteOk? && renameOk
      ensures View() == Run(Boot(old(View())), SaveEvents(data, temp, backupOk, write, renameOk, removeOk)).disk
    {
      ghost var s1 := Step(Step(Boot(View()), BeginSave(data)), Backup(backupOk));
      if main.Some? && backupOk {
        bak := main;
        main := None;
      }
      assert s1.disk == View();
      if write.WriteError? {
        if write.leftover.Some? {
          temps := temps[temp := write.leftover.value];
        }
        UnfoldFailedWrite(old(View()), data, temp, backupOk, write, renameOk, removeOk);
        return false;
      }
      ghost var s2 := Step(s1, Write(temp));
      temps := temps[temp := Complete(data)];
      assert s2.disk == View() && s2.progress == Written(0, temp);
      if renameOk {
        main := Some(temps[temp]);
        temps := temps - {temp};
      } else if removeOk {
        temps := temps - {temp};
      }
      ok := renameOk;
      UnfoldWritten(old(View()), data, temp, backupOk, write, renameOk, removeOk);
    }
  }

  function SaveEvents(clients: seq<Client>, temp: int, backupOk: bool, write: WriteOutcome,
                      renameOk: bool, removeOk: bool): seq<Event> {
    var begun := [BeginSave(clients), Backup(backupOk)];
    match write
    case WriteError(leftover) => begun + [WriteFails(temp, leftover)]
    case WriteOk => begun + [Write(temp)] + [Rename(renameOk)] + [if renameOk then Return else RemoveOrphan(removeOk)]
  }

  lemma RunLast(s: State, events: seq<Event>, e: Event)
    ensures Run(s, events + [e]) == Step(Run(s, events), e)
  {
    assert (events + [e])[..|events + [e]| - 1] == events;
  }

  lemma RunTwo(s: State, a: Event, b: Event)
    ensures Run(s, [a, b]) == Step(Step(s, a), b)
  {
    RunLast(s, [], a);
    RunLast(s, [a], b);
    assert [] + [a] == [a];
    assert [a] + [b] == [a, b];
  }

  lemma UnfoldFailedWrite(d: Disk, clients: seq<Client>, temp: int, backupOk: bool, write: WriteOutcome,
                          renameOk: bool, removeOk: bool)
    requires write.WriteError?
    ensures Run(Boot(d), SaveEvents(clients, temp, backupOk, write, renameOk, removeOk)) ==
            Step(Step(Step(Boot(d), BeginSave(clients)), Backup(backupOk)), WriteFails(temp, write.leftover))
  {
    RunTwo(Boot(d), BeginSave(clients), Backup(backupOk));
    RunLast(Boot(d), [BeginSave(clients), Backup(backupOk)], WriteFails(temp, write.leftover));
  }

  lemma RunThreeMore(s: State, events: seq<Event>, a: Event, b: Event, c: Event)
    ensures Run(s, events + [a] + [b] + [c]) == Step(Step(Step(Run(s, events), a), b), c)
  {
    RunLast(s, events, a);
    RunLast(s, events + [a], b);
    RunLast(s, events + [a] + [b], c);
  }

  lemma UnfoldWritten(d: Disk, clients: seq<Client>, temp: int, backupOk: bool, write: WriteOutcome,
                      renameOk: bool, removeOk: bool)
    requires write.WriteOk?
    ensures Run(Boot(d), SaveEvents(clients, temp, backupOk, write, renameOk, removeOk)) ==
            Step(Step(Step(Step(Step(Boot(d), BeginSave(clients)), Backup(backupOk)), Write(temp)), Rename(renameOk)),
                 if renameOk then Return else RemoveOrphan(removeOk))
  {
    RunTwo(Boot(d), BeginSave(clients), Backup(backupOk));
    RunThreeMore(Boot(d), [BeginSave(clients), Backup(backupOk)], Write(temp), Rename(renameOk),
                 if renameOk then Return else RemoveOrphan(removeOk));
  }

  /** What an uninterrupted Save leaves for recovery: what it was given if it succeeds, what there was if it fails. */
  lemma SaveRecovers(d: Disk, clients: seq<Client>, temp: int, backupOk: bool, write: WriteOutcome,
                     renameOk: bool, removeOk: bool)
    ensures var d' := Run(Boot(d), SaveEvents(clients, temp, backupOk, write, renameOk, removeOk)).disk;
            if write.WriteOk? && renameOk then Recover(d') == Some(clients)
            else !BackupWouldLose(d) ==> Recover(d') == Recover(d)
  {
    if write.WriteOk? {
      UnfoldWritten(d, clients, temp, backupOk, write, renameOk, removeOk);
    } else {
      UnfoldFailedWrite(d, clients, temp, backupOk, write, renameOk, removeOk);
    }
  }
}
