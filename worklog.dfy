/** worklog.h and worklog.cc: the work log record, the configuration of a
    work log space, validation, setting up the space, and the id counter. */
module Worklog {
  import opened Wrappers
  import opened GtlStatus
  import opened Time
  import opened Numbers
  import opened Files
  import Strings

  /** A work log. `id` is 0 until the log is stored; `createdAt` is seconds
      since the epoch. */
  datatype Log = Log(id: int, subject: string, description: string, createdAt: nat, tags: set<string>)

  /** Where a work log space keeps its files. */
  datatype Config = Config(metaDir: string, logsDir: string, nextId: string)
  {
    /** Config::NextIdPath: the counter file inside the meta directory. */
    function NextIdPath(): (p: string)
      ensures p == metaDir + "/" + nextId
    {
      Strings.JoinStr("/", metaDir, nextId)
    }
  }

  /** The default-initialised Config. */
  const DefaultConfig: Config := Config(".worklog", ".worklog/logs", "next_id")

  /** By default the counter lives at .worklog/next_id. */
  lemma DefaultNextIdPath()
    ensures DefaultConfig.NextIdPath() == ".worklog/next_id"
  {
  }

  // ---------------------------------------------------------------------
  // Validation
  // ---------------------------------------------------------------------

  const EmptyTextMessage: string := "Subject or description is empty."
  const BadDateMessage: string := "Invalid created_at date value. Expected format: 0000-00-00"

  /** Validate: a log is valid iff it has a subject, a description and a
      valid timestamp. Empty text is reported before a bad date. */
  function Validate(cal: Calendar, log: Log): (s: Status)
    ensures s.Ok() <==> log.subject != "" && log.description != "" && cal.isValid(log.createdAt)
    ensures !s.Ok() ==> s.code == INTERNAL
    ensures (log.subject == "" || log.description == "") ==> s.message == EmptyTextMessage
    ensures log.subject != "" && log.description != "" && !cal.isValid(log.createdAt) ==>
              s.message == BadDateMessage
  {
    if log.subject == "" || log.description == "" then Status(INTERNAL, EmptyTextMessage)
    else if !cal.isValid(log.createdAt) then Status(INTERNAL, BadDateMessage)
    else OkStatus()
  }

  // ---------------------------------------------------------------------
  // The work log space
  // ---------------------------------------------------------------------

  const MetaDirMessage: string := "Failed to create meta dir: "
  const LogsDirMessage: string := "Failed to create work log dir: "

  /** The status and the disk MaybeSetupWorklogSpace leaves. Both
      directories must not be files, where MkDir would throw. */
  function SetupOn(conf: Config, d: Disk): (r: (Status, Disk))
    requires conf.metaDir !in d.files && conf.logsDir !in d.files
    ensures r.0.Ok() <==> conf.metaDir !in d.dirs && conf.logsDir !in d.dirs && conf.logsDir != conf.metaDir
    ensures !r.0.Ok() ==> r.0.code == INTERNAL && r.1.files == d.files
    ensures conf.metaDir in d.dirs ==> r == (Status(INTERNAL, MetaDirMessage + conf.metaDir), d)
    ensures conf.metaDir !in d.dirs ==> r.1.dirs == d.dirs + {conf.metaDir, conf.logsDir}
    ensures r.0.Ok() ==> r.1.files == if r.1.Writable(conf.NextIdPath()) then d.files[conf.NextIdPath() := "1"] else d.files
  {
    if conf.metaDir in d.dirs then (Status(INTERNAL, MetaDirMessage + conf.metaDir), d)
    else
      var d1 := d.MkDir(conf.metaDir);
      if conf.logsDir in d1.dirs then (Status(INTERNAL, LogsDirMessage + conf.logsDir), d1.MkDir(conf.logsDir))
      else (OkStatus(), d1.MkDir(conf.logsDir).Write(conf.NextIdPath(), "1"))
  }

  /** MaybeSetupWorklogSpace: creates the meta and logs directories, then
      writes 1 to the counter. */
  method MaybeSetupWorklogSpace(conf: Config, fs: FileStore) returns (s: Status)
    requires conf.metaDir !in fs.files && conf.logsDir !in fs.files
    modifies fs
    ensures (s, fs.View()) == SetupOn(conf, old(fs.View()))
  {
    var made := fs.MkDir(conf.metaDir);
    if !made {
      assert old(fs.dirs) + {conf.metaDir} == old(fs.dirs);
      return Status(INTERNAL, MetaDirMessage + conf.metaDir);
    }
    made := fs.MkDir(conf.logsDir);
    if !made {
      return Status(INTERNAL, LogsDirMessage + conf.logsDir);
    }
    var written := fs.Write(conf.NextIdPath(), "1");
    s := OkStatus();
  }

  /** IsInWorklogSpace: both directories and the counter file exist. */
  predicate IsInWorklogSpace(conf: Config, d: Disk): (r: bool)
    ensures r <==> {conf.metaDir, conf.logsDir, conf.NextIdPath()} <= d.files.Keys + d.dirs
  {
    d.Exists(conf.metaDir) && d.Exists(conf.logsDir) && d.Exists(conf.NextIdPath())
  }

  // ---------------------------------------------------------------------
  // The id counter
  // ---------------------------------------------------------------------

  /** The counter file can be read and atoi reads `n` from it. */
  predicate CounterAt(conf: Config, d: Disk, n: int) {
    d.Read(conf.NextIdPath()).Some? && Atoi(d.Read(conf.NextIdPath()).value) == n
  }

  /** The id and the disk NextId yields: with no counter file it writes 2
      and hands out 1; with an unreadable one it fails; otherwise it hands
      out the stored number (atoi, so 0 for text without digits) and stores
      the next one. */
  function NextIdOn(conf: Config, d: Disk): (r: (Option<int>, Disk))
    ensures AgreesExcept(d, r.1, conf.NextIdPath())
    ensures !d.Exists(conf.NextIdPath()) ==> r == (Some(1), d.Write(conf.NextIdPath(), "2"))
    ensures d.Exists(conf.NextIdPath()) && d.Read(conf.NextIdPath()).None? ==> r == (None, d)
    ensures d.Read(conf.NextIdPath()).Some? ==>
              r.0 == Some(Atoi(d.Read(conf.NextIdPath()).value)) &&
              r.1 == d.Write(conf.NextIdPath(), IntToString(r.0.value + 1))
  {
    var p := conf.NextIdPath();
    if !d.Exists(p) then
      WriteChangesOnlyTarget(d, p, "2");
      (Some(1), d.Write(p, "2"))
    else match d.Read(p)
      case None => (None, d)
      case Some(content) =>
        var id := Atoi(content);
        WriteChangesOnlyTarget(d, p, IntToString(id + 1));
        (Some(id), d.Write(p, IntToString(id + 1)))
  }

  /** NextId. */
  method NextId(conf: Config, fs: FileStore) returns (id: Option<int>)
    modifies fs
    ensures (id, fs.View()) == NextIdOn(conf, old(fs.View()))
  {
    ghost var d := fs.View();
    var p := conf.NextIdPath();
    var present := fs.Exists(p);
    if !present {
      var written := fs.Write(p, "2");
      assert NextIdOn(conf, d) == (Some(1), d.Write(p, "2"));
      return Some(1);
    }
    var content := fs.Read(p);
    if content.None? {
      return None;
    }
    var n := Atoi(content.value);
    var written := fs.Write(p, IntToString(n + 1));
    id := Some(n);
  }

  /** Content without leading digits counts as id 0. */
  lemma NextIdOfNonNumeric(conf: Config, d: Disk)
    requires d.Read(conf.NextIdPath()).Some? && LeadingInt(d.Read(conf.NextIdPath()).value).None?
    ensures NextIdOn(conf, d).0 == Some(0)
  {
  }

  /** A readable directory at the counter path reads as the empty text,
      which atoi takes for 0: NextId hands out 0 and, as a directory cannot
      be overwritten, leaves the disk as it was. */
  lemma NextIdOfDirectory(conf: Config, d: Disk)
    requires conf.NextIdPath() in d.dirs && conf.NextIdPath() !in d.files
    requires conf.NextIdPath() !in d.unreadable
    ensures NextIdOn(conf, d) == (Some(0), d)
  {
    assert d.Read(conf.NextIdPath()) == Some("");
    assert LeadingInt("").None?;
  }

  /** A counter holding n hands out n and then holds n + 1. */
  lemma NextIdCounts(conf: Config, d: Disk, n: int)
    requires CounterAt(conf, d, n) && d.Writable(conf.NextIdPath())
    ensures NextIdOn(conf, d).0 == Some(n)
    ensures CounterAt(conf, NextIdOn(conf, d).1, n + 1)
  {
    AtoiOfToString(n + 1);
  }

  /** With no counter file, NextId hands out 1 and leaves the counter at 2. */
  lemma NextIdFromNothing(conf: Config, d: Disk)
    requires !d.Exists(conf.NextIdPath())
    requires d.Writable(conf.NextIdPath()) && conf.NextIdPath() !in d.unreadable
    ensures NextIdOn(conf, d).0 == Some(1)
    ensures CounterAt(conf, NextIdOn(conf, d).1, 2)
  {
    var p := conf.NextIdPath();
    WriteChangesOnlyTarget(d, p, "2");
    assert "2" == [DigitChar(2)];
    AtoiOfDigit(2);
  }

  /** `ids` are the ids successive NextId calls hand out when started on
      `ds[0]`, and `ds[i + 1]` is the disk after the call that returned
      `ids[i]`. */
  predicate IsRun(conf: Config, ds: seq<Disk>, ids: seq<Option<int>>) {
    |ds| == |ids| + 1 &&
    forall i {:trigger ids[i]} :: 0 <= i < |ids| ==> NextIdOn(conf, ds[i]) == (ids[i], ds[i + 1])
  }

  /** Along a run, a counter at n on disk `j` is at n + (i - j) on disk i. */
  lemma {:induction false} CounterAlongRun(conf: Config, ds: seq<Disk>, ids: seq<Option<int>>, j: nat, n: int, i: nat)
    requires IsRun(conf, ds, ids) && j <= i < |ds|
    requires CounterAt(conf, ds[j], n) && ds[j].Writable(conf.NextIdPath())
    ensures CounterAt(conf, ds[i], n + (i - j)) && ds[i].Writable(conf.NextIdPath())
    decreases i
  {
    if i > j {
      CounterAlongRun(conf, ds, ids, j, n, i - 1);
      NextIdCounts(conf, ds[i - 1], n + (i - 1 - j));
      assert NextIdOn(conf, ds[i - 1]) == (ids[i - 1], ds[i]);
    }
  }

  /** Along a run, from a counter holding n on disk `j` the call on disk i
      hands out n + (i - j). */
  lemma IdAlongRun(conf: Config, ds: seq<Disk>, ids: seq<Option<int>>, j: nat, n: int, i: nat)
    requires IsRun(conf, ds, ids) && j <= i < |ids|
    requires CounterAt(conf, ds[j], n) && ds[j].Writable(conf.NextIdPath())
    ensures ids[i] == Some(n + (i - j))
  {
    assert ids[i] == NextIdOn(conf, ds[i]).0;
    CounterAlongRun(conf, ds, ids, j, n, i);
    NextIdCounts(conf, ds[i], n + (i - j));
  }

  /** Along a run, from a counter holding n on disk `j` the calls hand out
      n, n + 1, n + 2, ... */
  lemma RunFrom(conf: Config, ds: seq<Disk>, ids: seq<Option<int>>, j: nat, n: int)
    requires IsRun(conf, ds, ids) && j < |ds|
    requires CounterAt(conf, ds[j], n) && ds[j].Writable(conf.NextIdPath())
    ensures forall i :: j <= i < |ids| ==> ids[i] == Some(n + (i - j))
  {
    forall i | j <= i < |ids| ensures ids[i] == Some(n + (i - j)) {
      IdAlongRun(conf, ds, ids, j, n, i);
    }
  }

  /** From a counter holding n, successive NextId calls hand out
      n, n + 1, n + 2, ... */
  lemma SuccessiveIds(conf: Config, ds: seq<Disk>, ids: seq<Option<int>>, n: int)
    requires IsRun(conf, ds, ids) && CounterAt(conf, ds[0], n) && ds[0].Writable(conf.NextIdPath())
    ensures forall i :: 0 <= i < |ids| ==> ids[i] == Some(n + i)
  {
    RunFrom(conf, ds, ids, 0, n);
  }

  /** The first call of a run that starts with no counter file. */
  lemma FirstCallFromNothing(conf: Config, ds: seq<Disk>, ids: seq<Option<int>>)
    requires IsRun(conf, ds, ids) && |ids| > 0
    requires !ds[0].Exists(conf.NextIdPath())
    requires ds[0].Writable(conf.NextIdPath()) && conf.NextIdPath() !in ds[0].unreadable
    ensures ids[0] == Some(1)
    ensures CounterAt(conf, ds[1], 2) && ds[1].Writable(conf.NextIdPath())
  {
    NextIdFromNothing(conf, ds[0]);
    assert NextIdOn(conf, ds[0]) == (ids[0], ds[1]);
  }

  /** Along a run that starts with no counter file, call i hands out i + 1. */
  lemma IdFromNothing(conf: Config, ds: seq<Disk>, ids: seq<Option<int>>, i: nat)
    requires IsRun(conf, ds, ids) && i < |ids|
    requires !ds[0].Exists(conf.NextIdPath())
    requires ds[0].Writable(conf.NextIdPath()) && conf.NextIdPath() !in ds[0].unreadable
    ensures ids[i] == Some(1 + i)
  {
    FirstCallFromNothing(conf, ds, ids);
    if i > 0 {
      IdAlongRun(conf, ds, ids, 1, 2, i);
    }
  }

  /** With no counter file, successive NextId calls hand out 1, 2, 3, ... */
  lemma SuccessiveIdsFromNothing(conf: Config, ds: seq<Disk>, ids: seq<Option<int>>)
    requires IsRun(conf, ds, ids)
    requires !ds[0].Exists(conf.NextIdPath())
    requires ds[0].Writable(conf.NextIdPath()) && conf.NextIdPath() !in ds[0].unreadable
    ensures forall i :: 0 <= i < |ids| ==> ids[i] == Some(1 + i)
  {
    forall i | 0 <= i < |ids| ensures ids[i] == Some(1 + i) {
      IdFromNothing(conf, ds, ids, i);
    }
  }

  /** A successful setup whose counter file can be written and read puts
      the disk in a work log space with the counter at 1, so successive
      NextId calls from there hand out 1, 2, 3, ... */
  lemma SetupStartsCounter(conf: Config, d: Disk)
    requires conf.metaDir !in d.files && conf.logsDir !in d.files
    requires SetupOn(conf, d).0.Ok()
    requires conf.NextIdPath() != conf.logsDir
    requires conf.NextIdPath() !in d.dirs && conf.NextIdPath() !in d.unwritable
    requires conf.NextIdPath() !in d.unreadable
    ensures IsInWorklogSpace(conf, SetupOn(conf, d).1)
    ensures CounterAt(conf, SetupOn(conf, d).1, 1)
    ensures SetupOn(conf, d).1.Writable(conf.NextIdPath())
  {
    var d' := SetupOn(conf, d).1;
    assert |conf.NextIdPath()| > |conf.metaDir|;
    assert d'.Writable(conf.NextIdPath());
    assert IntToString(1) == "1";
    AtoiOfToString(1);
  }
}
