/** storage.cc: work logs kept as one file per id under the logs
    directory, with ids handed out by the counter of worklog.cc. */
module Storage {
  import opened Wrappers
  import opened GtlStatus
  import opened Time
  import opened Numbers
  import opened Strings
  import opened Files
  import opened Worklog
  import opened Serializer

  /** The file of the work log with id `id`: logs_dir, a slash, the id in
      decimal. */
  function RecordPath(conf: Config, id: int): (p: string)
    ensures p == conf.logsDir + "/" + IntToString(id)
  {
    JoinStr("/", conf.logsDir, IntToString(id))
  }

  /** Different ids have different files. */
  lemma RecordPathInjective(conf: Config, i: int, j: int)
    requires RecordPath(conf, i) == RecordPath(conf, j)
    ensures i == j
  {
    var n := |conf.logsDir| + 1;
    assert RecordPath(conf, i)[n..] == IntToString(i);
    assert RecordPath(conf, j)[n..] == IntToString(j);
    IntToStringInjective(i, j);
  }

  const MissingMessage: string := "The work log does not exist under: "
  const UnreadableMessage: string := "Failed to read content from: "
  const HasIdMessage: string := "Worklog has an id, please use Update"
  const NoNewIdMessage: string := "Failed to generate a new id"
  const CollisionMessage: string := "A worklog does already exist under: "
  const NoIdMessage: string := "Worklog has no id, please use Save"
  const NotYetMessage: string := "A worklog does not yet exist under: "

  /** What LoadById answers on disk `d`. */
  function LoadOn(conf: Config, cal: Calendar, d: Disk, id: int): (r: StatusOr<Log>)
    ensures r.Value? <==> d.Read(RecordPath(conf, id)).Some?
    ensures r.Value? ==> r.value.id == id
    ensures d.Read(RecordPath(conf, id)).Some? ==>
              r == Value(Unserialized(cal, d.Read(RecordPath(conf, id)).value).(id := id))
    ensures !d.Exists(RecordPath(conf, id)) ==> r.status.code == NOT_FOUND
    ensures d.Exists(RecordPath(conf, id)) && d.Read(RecordPath(conf, id)).None? ==> r.status.code == INTERNAL
  {
    var path := RecordPath(conf, id);
    if !d.Exists(path) then Error(Status(NOT_FOUND, MissingMessage + path))
    else match d.Read(path)
      case None => Error(Status(INTERNAL, UnreadableMessage + path))
      case Some(content) => Value(Unserialized(cal, content).(id := id))
  }

  /** The status, the log and the disk Save leaves. */
  function SaveOn(conf: Config, cal: Calendar, d: Disk, log: Log): (r: (Status, Log, Disk))
    ensures log.id > 0 ==> r == (Status(INVALID_ARGUMENT, HasIdMessage), log, d)
    ensures log.id <= 0 && NextIdOn(conf, d).0.None? ==> r == (Status(INTERNAL, NoNewIdMessage), log, d)
    ensures log.id <= 0 && NextIdOn(conf, d).0.Some? ==> r.1 == log.(id := NextIdOn(conf, d).0.value)
    ensures r.0.Ok() || r.0.code == INVALID_ARGUMENT || r.0.code == INTERNAL
  {
    if log.id > 0 then (Status(INVALID_ARGUMENT, HasIdMessage), log, d)
    else
      var (next, d1) := NextIdOn(conf, d);
      match next
      case None => (Status(INTERNAL, NoNewIdMessage), log, d1)
      case Some(id) =>
        var saved := log.(id := id);
        var path := RecordPath(conf, id);
        if d1.Exists(path) then (Status(INTERNAL, CollisionMessage + path), saved, d1)
        else (OkStatus(), saved, d1.Write(path, Serialize(cal, saved)))
  }

  /** The status and the disk Update leaves. */
  function UpdateOn(conf: Config, cal: Calendar, d: Disk, log: Log): (r: (Status, Disk))
    ensures log.id <= 0 ==> r == (Status(INVALID_ARGUMENT, NoIdMessage), d)
    ensures log.id > 0 && !d.Exists(RecordPath(conf, log.id)) ==>
              r == (Status(INTERNAL, NotYetMessage + RecordPath(conf, log.id)), d)
    ensures r.0.Ok() <==> log.id > 0 && d.Exists(RecordPath(conf, log.id))
  {
    if log.id <= 0 then (Status(INVALID_ARGUMENT, NoIdMessage), d)
    else
      var path := RecordPath(conf, log.id);
      if !d.Exists(path) then (Status(INTERNAL, NotYetMessage + path), d)
      else (OkStatus(), d.Write(path, Serialize(cal, log)))
  }

  /** The Storage class: the configuration, the serializer's calendar and
      the file system it works on. */
  class Storage {
    const conf: Config
    const cal: Calendar
    const fs: FileStore

    constructor (conf: Config, cal: Calendar, fs: FileStore)
      ensures this.conf == conf && this.cal == cal && this.fs == fs
    {
      this.conf, this.cal, this.fs := conf, cal, fs;
    }

    /** Storage::LoadById. Reads, never writes. */
    method LoadById(id: int) returns (r: StatusOr<Log>)
      ensures r == LoadOn(conf, cal, fs.View(), id)
    {
      var path := JoinStr("/", conf.logsDir, IntToString(id));
      var present := fs.Exists(path);
      if !present {
        return Error(Status(NOT_FOUND, MissingMessage + path));
      }
      var content := fs.Read(path);
      if content.None? {
        return Error(Status(INTERNAL, UnreadableMessage + path));
      }
      var log := Unserialize(cal, content.value);
      log := log.(id := id);
      r := Value(log);
    }

    /** Storage::Save. `saved` is the caller's log afterwards: its id is set
        as soon as one is handed out. */
    method Save(log: Log) returns (s: Status, saved: Log)
      modifies fs
      ensures (s, saved, fs.View()) == SaveOn(conf, cal, old(fs.View()), log)
    {
      saved := log;
      if log.id > 0 {
        return Status(INVALID_ARGUMENT, HasIdMessage), saved;
      }
      var next := NextId(conf, fs);
      if next.None? {
        return Status(INTERNAL, NoNewIdMessage), saved;
      }
      saved := saved.(id := next.value);
      var path := JoinStr("/", conf.logsDir, IntToString(saved.id));
      var present := fs.Exists(path);
      if present {
        return Status(INTERNAL, CollisionMessage + path), saved;
      }
      var written := fs.Write(path, Serialize(cal, saved));
      s := OkStatus();
    }

    /** Storage::Update. */
    method Update(log: Log) returns (s: Status)
      modifies fs
      ensures (s, fs.View()) == UpdateOn(conf, cal, old(fs.View()), log)
    {
      if log.id <= 0 {
        return Status(INVALID_ARGUMENT, NoIdMessage);
      }
      var path := JoinStr("/", conf.logsDir, IntToString(log.id));
      var present := fs.Exists(path);
      if !present {
        return Status(INTERNAL, NotYetMessage + path);
      }
      var written := fs.Write(path, Serialize(cal, log));
      s := OkStatus();
    }
  }

  // ---------------------------------------------------------------------
  // Properties
  // ---------------------------------------------------------------------

  /** Save touches at most the counter file and the new record. */
  lemma SaveTouchesCounterAndRecord(conf: Config, cal: Calendar, d: Disk, log: Log)
    requires log.id <= 0 && NextIdOn(conf, d).0.Some?
    ensures AgreesOutside(d, SaveOn(conf, cal, d, log).2,
                          {conf.NextIdPath(), RecordPath(conf, NextIdOn(conf, d).0.value)})
  {
    var (next, d1) := NextIdOn(conf, d);
    var path := RecordPath(conf, next.value);
    var d2 := SaveOn(conf, cal, d, log).2;
    if d1.Exists(path) {
      assert d2 == d1;
      assert AgreesExcept(d1, d2, path);
    } else {
      WriteChangesOnlyTarget(d1, path, Serialize(cal, log.(id := next.value)));
    }
    AgreesExceptCompose(d, d1, d2, conf.NextIdPath(), path);
  }

  /** Save never overwrites a file other than the counter: a record at the
      new id's path makes it fail instead. */
  lemma SaveNeverOverwrites(conf: Config, cal: Calendar, d: Disk, log: Log, q: string)
    requires q in d.files && q != conf.NextIdPath()
    ensures q in SaveOn(conf, cal, d, log).2.files && SaveOn(conf, cal, d, log).2.files[q] == d.files[q]
  {
    if log.id <= 0 && NextIdOn(conf, d).0.Some? {
      var (next, d1) := NextIdOn(conf, d);
      var path := RecordPath(conf, next.value);
      AgreesOutsideAt(d, d1, {conf.NextIdPath()}, q);
      if q != path {
        SaveTouchesCounterAndRecord(conf, cal, d, log);
        AgreesOutsideAt(d, SaveOn(conf, cal, d, log).2, {conf.NextIdPath(), path}, q);
      }
    }
  }

  /** A successful Save stores the log with its new id, and LoadById of
      that id reads back what Unserialize makes of the stored text. */
  lemma SaveThenLoad(conf: Config, cal: Calendar, d: Disk, log: Log)
    requires SaveOn(conf, cal, d, log).0.Ok()
    requires var id := SaveOn(conf, cal, d, log).1.id;
             NextIdOn(conf, d).1.Writable(RecordPath(conf, id)) && RecordPath(conf, id) !in d.unreadable
    ensures var (_, saved, d') := SaveOn(conf, cal, d, log);
            saved == log.(id := saved.id) &&
            LoadOn(conf, cal, d', saved.id) == Value(Unserialized(cal, Serialize(cal, saved)).(id := saved.id))
  {
    var (next, d1) := NextIdOn(conf, d);
    var saved := log.(id := next.value);
    var path := RecordPath(conf, next.value);
    assert SaveOn(conf, cal, d, log) == (OkStatus(), saved, d1.Write(path, Serialize(cal, saved)));
    WriteChangesOnlyTarget(d1, path, Serialize(cal, saved));
    assert d1.Write(path, Serialize(cal, saved)).Read(path) == Some(Serialize(cal, saved));
  }

  /** For a log Serialize can write faithfully, Save then LoadById gives
      back its trimmed subject, its tags, its trimmed description and the
      id Save handed out. */
  lemma SaveThenLoadSerializable(conf: Config, cal: Calendar, d: Disk, log: Log)
    requires Serializable(cal, log)
    requires SaveOn(conf, cal, d, log).0.Ok()
    requires var id := SaveOn(conf, cal, d, log).1.id;
             NextIdOn(conf, d).1.Writable(RecordPath(conf, id)) && RecordPath(conf, id) !in d.unreadable
    ensures var (_, saved, d') := SaveOn(conf, cal, d, log);
            LoadOn(conf, cal, d', saved.id) ==
              Value(Log(saved.id, TrimSpace(log.subject), "\n" + TrimSpace(log.description) + "\n\n",
                        cal.parse(cal.format(log.createdAt)).GetOr(0), log.tags))
  {
    SaveThenLoad(conf, cal, d, log);
    var saved := SaveOn(conf, cal, d, log).1;
    SerializeIgnoresId(cal, log, saved.id);
    RoundTrip(cal, log);
  }

  /** A collision leaves the existing record as it was, but the log has
      taken the new id and the counter has moved on. */
  lemma SaveCollision(conf: Config, cal: Calendar, d: Disk, log: Log)
    requires log.id <= 0 && NextIdOn(conf, d).0.Some?
    requires NextIdOn(conf, d).1.Exists(RecordPath(conf, NextIdOn(conf, d).0.value))
    ensures var (s, saved, d') := SaveOn(conf, cal, d, log);
            s.code == INTERNAL && saved.id == NextIdOn(conf, d).0.value && d' == NextIdOn(conf, d).1
  {
  }

  /** Save reports success even when the record cannot be written; the
      record is then missing. */
  lemma SaveOkWhenUnwritable(conf: Config, cal: Calendar, d: Disk, log: Log)
    requires log.id <= 0 && NextIdOn(conf, d).0.Some?
    requires var p := RecordPath(conf, NextIdOn(conf, d).0.value);
             !NextIdOn(conf, d).1.Exists(p) && !NextIdOn(conf, d).1.Writable(p)
    ensures SaveOn(conf, cal, d, log).0.Ok()
    ensures RecordPath(conf, NextIdOn(conf, d).0.value) !in SaveOn(conf, cal, d, log).2.files
  {
  }

  /** A successful Update rewrites the log's own record and nothing else;
      it never creates a file. */
  lemma UpdateTouchesOnlyRecord(conf: Config, cal: Calendar, d: Disk, log: Log)
    requires UpdateOn(conf, cal, d, log).0.Ok()
    ensures AgreesExcept(d, UpdateOn(conf, cal, d, log).1, RecordPath(conf, log.id))
    ensures UpdateOn(conf, cal, d, log).1.files.Keys == d.files.Keys
  {
    var path := RecordPath(conf, log.id);
    WriteChangesOnlyTarget(d, path, Serialize(cal, log));
    if d.Writable(path) {
      assert path in d.files;
    }
  }

  /** After a successful Update of a readable, writable record, LoadById
      reads back the updated log with its id. */
  lemma UpdateThenLoad(conf: Config, cal: Calendar, d: Disk, log: Log)
    requires UpdateOn(conf, cal, d, log).0.Ok()
    requires d.Writable(RecordPath(conf, log.id)) && RecordPath(conf, log.id) !in d.unreadable
    ensures LoadOn(conf, cal, UpdateOn(conf, cal, d, log).1, log.id) ==
              Value(Unserialized(cal, Serialize(cal, log)).(id := log.id))
  {
    WriteChangesOnlyTarget(d, RecordPath(conf, log.id), Serialize(cal, log));
  }

  /** A readable directory at a record's path reads as the empty text, so
      LoadById gives the blank log under the requested id. */
  lemma LoadOfDirectory(conf: Config, cal: Calendar, d: Disk, id: int)
    requires RecordPath(conf, id) in d.dirs && RecordPath(conf, id) !in d.files
    requires RecordPath(conf, id) !in d.unreadable
    ensures LoadOn(conf, cal, d, id) == Value(Blank.(id := id))
  {
    assert d.Read(RecordPath(conf, id)) == Some("");
    assert Pieces("", "\n", false) == [];
  }

  /** `logs[i]` is the new work log (no id yet) handed to the i-th of
      successive Save calls started on `ds[0]`, and `ds[i + 1]` is the disk
      that call leaves. */
  predicate IsSaveRun(conf: Config, cal: Calendar, ds: seq<Disk>, logs: seq<Log>) {
    |ds| == |logs| + 1 &&
    forall i {:trigger logs[i]} :: 0 <= i < |logs| ==> SavedNew(conf, cal, ds[i], logs[i], ds[i + 1])
  }

  /** Saving the new work log `log` on `d` leaves `d'`. */
  predicate SavedNew(conf: Config, cal: Calendar, d: Disk, log: Log, d': Disk) {
    log.id <= 0 && d' == SaveOn(conf, cal, d, log).2
  }

  /** The counter file does not lie in the logs directory. */
  predicate CounterOutsideLogs(conf: Config) {
    !(conf.logsDir + "/" <= conf.NextIdPath())
  }

  /** With the counter outside the logs directory, no record is the
      counter. */
  lemma RecordNotCounter(conf: Config, id: int)
    requires CounterOutsideLogs(conf)
    ensures RecordPath(conf, id) != conf.NextIdPath()
  {
    assert conf.logsDir + "/" <= RecordPath(conf, id);
  }

  /** Once NextId has handed a new log its id, the rest of Save leaves the
      counter file as NextId left it, unless the record is the counter. */
  lemma SaveAfterNextId(conf: Config, cal: Calendar, d: Disk, log: Log)
    requires log.id <= 0 && NextIdOn(conf, d).0.Some?
    requires RecordPath(conf, NextIdOn(conf, d).0.value) != conf.NextIdPath()
    ensures SaveOn(conf, cal, d, log).1.id == NextIdOn(conf, d).0.value
    ensures SaveOn(conf, cal, d, log).2.Read(conf.NextIdPath()) == NextIdOn(conf, d).1.Read(conf.NextIdPath())
    ensures SaveOn(conf, cal, d, log).2.Writable(conf.NextIdPath()) == d.Writable(conf.NextIdPath())
  {
    var d1 := NextIdOn(conf, d).1;
    var saved := log.(id := NextIdOn(conf, d).0.value);
    var path := RecordPath(conf, saved.id);
    WriteElsewhere(d1, path, conf.NextIdPath(), Serialize(cal, saved));
  }

  /** Saving a new log with the counter at n gives it id n and leaves the
      counter at n + 1, whether or not its record could be written. */
  lemma SaveStep(conf: Config, cal: Calendar, d: Disk, log: Log, n: int)
    requires log.id <= 0
    requires CounterAt(conf, d, n) && d.Writable(conf.NextIdPath())
    requires RecordPath(conf, n) != conf.NextIdPath()
    ensures SaveOn(conf, cal, d, log).1.id == n
    ensures CounterAt(conf, SaveOn(conf, cal, d, log).2, n + 1)
    ensures SaveOn(conf, cal, d, log).2.Writable(conf.NextIdPath())
  {
    NextIdCounts(conf, d, n);
    SaveAfterNextId(conf, cal, d, log);
  }

  /** Saving a new log with no counter file gives it id 1 and leaves the
      counter at 2. */
  lemma FirstSave(conf: Config, cal: Calendar, d: Disk, log: Log)
    requires log.id <= 0
    requires !d.Exists(conf.NextIdPath())
    requires d.Writable(conf.NextIdPath()) && conf.NextIdPath() !in d.unreadable
    requires RecordPath(conf, 1) != conf.NextIdPath()
    ensures SaveOn(conf, cal, d, log).1.id == 1
    ensures CounterAt(conf, SaveOn(conf, cal, d, log).2, 2)
    ensures SaveOn(conf, cal, d, log).2.Writable(conf.NextIdPath())
  {
    NextIdFromNothing(conf, d);
    SaveAfterNextId(conf, cal, d, log);
  }

  /** Along a Save run of new logs, a counter at n on disk `j` is at
      n + (i - j) on disk i. */
  lemma {:induction false} CounterAlongSaves(conf: Config, cal: Calendar, ds: seq<Disk>, logs: seq<Log>,
                                             j: nat, n: int, i: nat)
    requires IsSaveRun(conf, cal, ds, logs) && j <= i < |ds|
    requires CounterOutsideLogs(conf)
    requires CounterAt(conf, ds[j], n) && ds[j].Writable(conf.NextIdPath())
    ensures CounterAt(conf, ds[i], n + (i - j)) && ds[i].Writable(conf.NextIdPath())
    decreases i
  {
    if i > j {
      CounterAlongSaves(conf, cal, ds, logs, j, n, i - 1);
      assert SavedNew(conf, cal, ds[i - 1], logs[i - 1], ds[i]);
      SavedNewStep(conf, cal, ds[i - 1], logs[i - 1], ds[i], n + (i - 1 - j));
    }
  }

  /** One Save of a new log moves the counter from m to m + 1. */
  lemma SavedNewStep(conf: Config, cal: Calendar, d: Disk, log: Log, d': Disk, m: int)
    requires SavedNew(conf, cal, d, log, d')
    requires CounterOutsideLogs(conf)
    requires CounterAt(conf, d, m) && d.Writable(conf.NextIdPath())
    ensures CounterAt(conf, d', m + 1) && d'.Writable(conf.NextIdPath())
  {
    RecordNotCounter(conf, m);
    SaveStep(conf, cal, d, log, m);
  }

  /** A Save run of new logs that starts with no counter file has the
      counter at 2 after its first Save. */
  lemma CounterAfterFirstSave(conf: Config, cal: Calendar, ds: seq<Disk>, logs: seq<Log>)
    requires IsSaveRun(conf, cal, ds, logs) && 0 < |logs|
    requires !ds[0].Exists(conf.NextIdPath())
    requires ds[0].Writable(conf.NextIdPath()) && conf.NextIdPath() !in ds[0].unreadable
    requires RecordPath(conf, 1) != conf.NextIdPath()
    ensures CounterAt(conf, ds[1], 2) && ds[1].Writable(conf.NextIdPath())
  {
    FirstSave(conf, cal, ds[0], logs[0]);
    assert ds[1] == SaveOn(conf, cal, ds[0], logs[0]).2;
  }

  /** Along a Save run of new logs, with the counter at n on disk `j`, the
      Save on disk i gives id n + (i - j). */
  lemma SaveIdAlongRun(conf: Config, cal: Calendar, ds: seq<Disk>, logs: seq<Log>, j: nat, n: int, i: nat)
    requires IsSaveRun(conf, cal, ds, logs) && j <= i < |logs|
    requires CounterOutsideLogs(conf)
    requires CounterAt(conf, ds[j], n) && ds[j].Writable(conf.NextIdPath())
    ensures SaveOn(conf, cal, ds[i], logs[i]).1.id == n + (i - j)
  {
    CounterAlongSaves(conf, cal, ds, logs, j, n, i);
    RecordNotCounter(conf, n + (i - j));
    assert logs[i].id <= 0;
    SaveStep(conf, cal, ds[i], logs[i], n + (i - j));
  }

  /** Along a Save run of new logs that starts with no counter file, Save
      i gives id i + 1. */
  lemma SaveIdFromNothing(conf: Config, cal: Calendar, ds: seq<Disk>, logs: seq<Log>, i: nat)
    requires IsSaveRun(conf, cal, ds, logs) && i < |logs|
    requires !ds[0].Exists(conf.NextIdPath())
    requires ds[0].Writable(conf.NextIdPath()) && conf.NextIdPath() !in ds[0].unreadable
    requires CounterOutsideLogs(conf)
    ensures SaveOn(conf, cal, ds[i], logs[i]).1.id == i + 1
  {
    RecordNotCounter(conf, 1);
    assert logs[0].id <= 0;
    if i == 0 {
      FirstSave(conf, cal, ds[0], logs[0]);
    } else {
      CounterAfterFirstSave(conf, cal, ds, logs);
      SaveIdAlongRun(conf, cal, ds, logs, 1, 2, i);
    }
  }

  /** With no counter file, successive Saves of new logs give them the ids
      1, 2, 3, ..., as long as the counter can be written and read and lies
      outside the logs directory. */
  lemma SuccessiveSavesFromNothing(conf: Config, cal: Calendar, ds: seq<Disk>, logs: seq<Log>)
    requires IsSaveRun(conf, cal, ds, logs)
    requires !ds[0].Exists(conf.NextIdPath())
    requires ds[0].Writable(conf.NextIdPath()) && conf.NextIdPath() !in ds[0].unreadable
    requires CounterOutsideLogs(conf)
    ensures forall i :: 0 <= i < |logs| ==> SaveOn(conf, cal, ds[i], logs[i]).1.id == i + 1
  {
    forall i | 0 <= i < |logs| ensures SaveOn(conf, cal, ds[i], logs[i]).1.id == i + 1 {
      SaveIdFromNothing(conf, cal, ds, logs, i);
    }
  }

  /** LoadById takes the id from the request, never from the file: two
      records with the same text load as the same log under their own ids. */
  lemma LoadIdFromPath(conf: Config, cal: Calendar, d: Disk, i: int, j: int)
    requires d.Read(RecordPath(conf, i)).Some? && d.Read(RecordPath(conf, i)) == d.Read(RecordPath(conf, j))
    ensures LoadOn(conf, cal, d, i).value.(id := 0) == LoadOn(conf, cal, d, j).value.(id := 0)
    ensures LoadOn(conf, cal, d, i).value.id == i && LoadOn(conf, cal, d, j).value.id == j
  {
  }
}
