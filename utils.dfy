/** utils.cc: the text of a new log, the check after editing, reading ids
    from file names and numbers from arguments, and the index of all logs. */
module Utils {
  import opened Wrappers
  import opened Time
  import opened Numbers
  import opened Strings
  import opened StringOrder
  import opened Worklog
  import opened Serializer
  import opened Storage

  // ---------------------------------------------------------------------
  // Template and PostEditValidation
  // ---------------------------------------------------------------------

  /** The log Template fills in, created at `now`, the current time. */
  function TemplateLog(now: nat): Log {
    Log(0, "Title here", "Description here", now, {"tag1", "tag2"})
  }

  /** Template: the serialized template log, that is the date line, the
      tags line listing tag1 then tag2, a blank, the title, a blank, the
      description and a blank. */
  function Template(cal: Calendar, now: nat): (text: string)
    ensures text == Terminated([TagLine("date", cal.format(now)), TagLine("tags", "tag1, tag2"), "",
                                "Title here", "", "Description here", ""], "\n")
  {
    var log := TemplateLog(now);
    assert Trimmed(log.subject) && Trimmed(log.description);
    SerializeTrimmed(cal, log);
    TemplateTagsLine();
    Serialize(cal, log)
  }

  /** The template's tags, iterated in ascending order, are listed tag1
      first. */
  lemma TemplateTagsLine()
    ensures Joined(Ordered({"tag1", "tag2"}), ", ") == "tag1, tag2"
  {
    assert Less("tag1", "tag2") by {
      assert "tag1"[1..] == "ag1" && "tag2"[1..] == "ag2";
      assert "ag1"[1..] == "g1" && "ag2"[1..] == "g2";
      assert "g1"[1..] == "1" && "g2"[1..] == "2";
    }
    OrderedPair("tag1", "tag2");
    assert ["tag1", "tag2"][1..] == ["tag2"];
  }

  /** Serialize writes a trimmed subject and description as they are. */
  lemma SerializeTrimmed(cal: Calendar, log: Log)
    requires Trimmed(log.subject) && Trimmed(log.description)
    ensures Serialize(cal, log) ==
              Terminated([TagLine("date", cal.format(log.createdAt)), TagLine("tags", Joined(Ordered(log.tags), ", ")),
                          "", log.subject, "", log.description, ""], "\n")
  {
    TrimSpaceOfTrimmed(log.subject);
    TrimSpaceOfTrimmed(log.description);
  }

  /** PostEditValidation: 0 when the edited text reads back as a valid
      log, -1 (after reporting why) otherwise. */
  function PostEditValidation(cal: Calendar, content: string): (r: int)
    ensures r == 0 <==> Validate(cal, Unserialized(cal, content)).Ok()
    ensures r == 0 || r == -1
  {
    if Validate(cal, Unserialized(cal, content)).Ok() then 0 else -1
  }

  /** An empty edit is rejected: it has no subject. */
  lemma EmptyEditRejected(cal: Calendar)
    ensures PostEditValidation(cal, "") == -1
  {
    SplitEmptyText("\n", false);
  }

  /** A log with trimmed one-line text and plain tags is serializable when
      its date is written as a plain word. */
  lemma PlainLogSerializable(cal: Calendar, log: Log)
    requires Trimmed(cal.format(log.createdAt)) && '=' !in cal.format(log.createdAt) && '\n' !in cal.format(log.createdAt)
    requires Trimmed(log.subject) && '=' !in log.subject && '\n' !in log.subject
    requires Trimmed(log.description) && '=' !in log.description
    requires forall t :: t in log.tags ==> PlainTag(t)
    ensures Serializable(cal, log)
  {
    TrimSpaceOfTrimmed(log.subject);
    TrimSpaceOfTrimmed(log.description);
  }

  lemma PlainPair(a: string, b: string)
    requires PlainTag(a) && PlainTag(b)
    ensures forall t :: t in {a, b} ==> PlainTag(t)
  {
  }

  /** The template log is one Serialize writes back faithfully, when the
      date it writes is a plain word. */
  lemma TemplateSerializable(cal: Calendar, now: nat)
    requires Trimmed(cal.format(now)) && '=' !in cal.format(now) && '\n' !in cal.format(now)
    ensures Serializable(cal, TemplateLog(now))
  {
    assert PlainTag("tag1") && PlainTag("tag2");
    PlainPair("tag1", "tag2");
    assert Trimmed("Title here") && '=' !in "Title here" && '\n' !in "Title here";
    assert Trimmed("Description here") && '=' !in "Description here";
    PlainLogSerializable(cal, TemplateLog(now));
  }

  /** Whatever Serialize writes for a serializable log whose date reads
      back as a valid time passes the check after editing. */
  lemma SerializedPassesValidation(cal: Calendar, log: Log)
    requires Serializable(cal, log)
    requires cal.isValid(cal.parse(cal.format(log.createdAt)).GetOr(0))
    ensures PostEditValidation(cal, Serialize(cal, log)) == 0
  {
    RoundTrip(cal, log);
  }

  /** The template itself passes the check after editing, when the date it
      writes is a plain word that parses back to a valid time. */
  lemma TemplatePassesValidation(cal: Calendar, now: nat)
    requires Trimmed(cal.format(now)) && '=' !in cal.format(now) && '\n' !in cal.format(now)
    requires cal.isValid(cal.parse(cal.format(now)).GetOr(0))
    ensures PostEditValidation(cal, Template(cal, now)) == 0
  {
    TemplateSerializable(cal, now);
    SerializedPassesValidation(cal, TemplateLog(now));
  }

  // ---------------------------------------------------------------------
  // Ids and numbers
  // ---------------------------------------------------------------------

  /** std::string::rfind of one character. */
  function LastIndexOf(t: string, c: char): (r: Option<nat>)
    ensures r.None? <==> c !in t
    ensures r.Some? ==> r.value < |t| && t[r.value] == c && c !in t[r.value + 1..]
    decreases |t|
  {
    if |t| == 0 then None
    else if t[|t| - 1] == c then Some(|t| - 1)
    else
      var r := LastIndexOf(t[..|t| - 1], c);
      assert t == t[..|t| - 1] + [t[|t| - 1]];
      assert r.Some? ==> t[r.value + 1..] == t[..|t| - 1][r.value + 1..] + [t[|t| - 1]];
      r
  }

  /** ExtractWorklogIdFromPath: no id when the path has no '/', otherwise
      std::stoi of what follows the last '/'. std::stoi throws when that
      text is not a number in range, and nothing catches it: Failure is
      that exception. */
  function ExtractWorklogIdFromPath(path: string): (r: Result<Option<int>, StoiError>)
    ensures r == Success(None) <==> '/' !in path
    ensures r.Success? && r.value.Some? ==> IntMin <= r.value.value <= IntMax
  {
    match LastIndexOf(path, '/')
    case None => Success(None)
    case Some(pos) =>
      match Stoi(path[pos + 1..])
      case Success(v) => Success(Some(v))
      case Failure(e) => Failure(e)
  }

  /** The last occurrence of `c` is the one no later `c` follows. */
  lemma {:induction false} LastIndexOfBefore(t: string, c: char, u: string)
    requires c !in u
    ensures LastIndexOf(t + [c] + u, c) == Some(|t|)
    decreases |u|
  {
    var w := t + [c] + u;
    if |u| > 0 {
      assert w[..|w| - 1] == t + [c] + u[..|u| - 1];
      LastIndexOfBefore(t, c, u[..|u| - 1]);
    }
  }

  /** A path with a '/' gives std::stoi of what follows its last '/': that
      number, or the exception stoi throws. */
  lemma ExtractAfterLastSlash(pre: string, suf: string)
    requires '/' !in suf
    ensures ExtractWorklogIdFromPath(pre + "/" + suf) ==
              (if Stoi(suf).Success? then Success(Some(Stoi(suf).value)) else Failure(Stoi(suf).error))
  {
    LastIndexOfBefore(pre, '/', suf);
    assert pre + "/" + suf == pre + ['/'] + suf;
    assert (pre + ['/'] + suf)[|pre| + 1..] == suf;
  }

  /** The file of a stored log gives back its id. */
  lemma ExtractIdOfRecordPath(conf: Config, id: int)
    requires IntMin <= id <= IntMax
    ensures ExtractWorklogIdFromPath(RecordPath(conf, id)) == Success(Some(id))
  {
    var digits := IntToString(id);
    assert '/' !in digits by {
      assert digits[0] != '/';
      assert forall k :: 0 < k < |digits| ==> digits[k] != '/';
    }
    LastIndexOfBefore(conf.logsDir, '/', digits);
    assert (conf.logsDir + ['/'] + digits)[|conf.logsDir| + 1..] == digits;
    StoiOfToString(id);
  }

  /** NumberFromString: std::stoi with its exceptions turned into None. */
  function NumberFromString(number: string): (r: Option<int>)
    ensures r.Some? <==> Stoi(number).Success?
    ensures r.Some? ==> IntMin <= r.value <= IntMax && LeadingInt(number) == r
  {
    match Stoi(number)
    case Success(v) => Some(v)
    case Failure(_) => None
  }

  /** The decimal text of an integer reads back as that integer exactly
      when it fits in `int`. */
  lemma NumberFromStringOfToString(i: int)
    ensures NumberFromString(IntToString(i)) == if IntMin <= i <= IntMax then Some(i) else None
  {
    LeadingIntOfToStringThen(i, "");
    assert IntToString(i) + "" == IntToString(i);
  }

  /** Text after the number that does not start with a digit is ignored. */
  lemma NumberFromStringIgnoresTail(i: int, rest: string)
    requires IntMin <= i <= IntMax
    requires rest == [] || !IsDigit(rest[0])
    ensures NumberFromString(IntToString(i) + rest) == Some(i)
  {
    LeadingIntOfToStringThen(i, rest);
  }

  /** Leading blanks are skipped. */
  lemma NumberFromStringSkipsBlank(t: string)
    ensures NumberFromString(" " + t) == NumberFromString(t)
  {
    LeadingIntSkipsBlank(t);
  }

  /** Text that starts with neither a blank, a sign nor a digit gives None. */
  lemma NumberFromStringNoDigits(t: string)
    requires |t| > 0 && !IsSpace(t[0]) && !IsDigit(t[0]) && t[0] != '-' && t[0] != '+'
    ensures NumberFromString(t) == None
  {
  }

  // ---------------------------------------------------------------------
  // IndexFromDir
  // ---------------------------------------------------------------------

  /** What walking the directory yields for one file: its path and what
      FileReadContent returned for it. */
  datatype Entry = Entry(path: string, content: Option<string>)

  /** What the walk makes of one entry: the stoi failure that aborts it,
      nothing (no id in the path, or the file unreadable), or the log read
      from the file with the id from its path. */
  function EntryLog(cal: Calendar, e: Entry): (r: Result<Option<Log>, StoiError>)
    ensures r.Failure? <==> ExtractWorklogIdFromPath(e.path).Failure?
    ensures r.Success? && r.value.Some? ==> Some(r.value.value.id) == ExtractWorklogIdFromPath(e.path).value
    ensures r == Success(None) <==>
              ExtractWorklogIdFromPath(e.path) == Success(None) ||
              (ExtractWorklogIdFromPath(e.path).Success? && e.content.None?)
    ensures r.Success? && r.value.Some? ==>
              e.content.Some? && r.value.value == Unserialized(cal, e.content.value).(id := r.value.value.id)
  {
    match ExtractWorklogIdFromPath(e.path)
    case Failure(err) => Failure(err)
    case Success(None) => Success(None)
    case Success(Some(id)) =>
      if e.content.None? then Success(None)
      else Success(Some(Unserialized(cal, e.content.value).(id := id)))
  }

  /** A walked record file yields the log Unserialize makes of its
      content, under the id its name gives; an unreadable one is skipped. */
  lemma EntryOfRecord(cal: Calendar, conf: Config, id: int, content: Option<string>)
    requires IntMin <= id <= IntMax
    ensures EntryLog(cal, Entry(RecordPath(conf, id), content)) ==
              if content.None? then Success(None) else Success(Some(Unserialized(cal, content.value).(id := id)))
  {
    ExtractIdOfRecordPath(conf, id);
  }

  /** The fold of the walk: each element yields an error that aborts the
      walk, nothing, or one item to keep. */
  function Collect<E, T, Err>(f: E -> Result<Option<T>, Err>, xs: seq<E>): Result<seq<T>, Err>
    decreases |xs|
  {
    if |xs| == 0 then Success([])
    else
      match Collect(f, xs[..|xs| - 1])
      case Failure(err) => Failure(err)
      case Success(items) =>
        match f(xs[|xs| - 1])
        case Failure(err) => Failure(err)
        case Success(None) => Success(items)
        case Success(Some(item)) => Success(items + [item])
  }

  /** The logs the walk collects, in walk order, up to the first entry
      whose id does not parse. */
  function Kept(cal: Calendar, entries: seq<Entry>): Result<seq<Log>, StoiError>
  {
    Collect(e => EntryLog(cal, e), entries)
  }

  /** The walk fails exactly when some element fails. */
  lemma {:induction false} CollectFails<E, T, Err>(f: E -> Result<Option<T>, Err>, xs: seq<E>)
    ensures Collect(f, xs).Failure? <==> exists i :: 0 <= i < |xs| && f(xs[i]).Failure?
    decreases |xs|
  {
    if |xs| > 0 {
      var init := xs[..|xs| - 1];
      CollectFails(f, init);
      assert forall i :: 0 <= i < |init| ==> init[i] == xs[i];
    }
  }

  /** A failure stays a failure however the walk goes on. */
  lemma {:induction false} CollectFailureStays<E, T, Err>(f: E -> Result<Option<T>, Err>, xs: seq<E>, i: nat)
    requires i <= |xs| && Collect(f, xs[..i]).Failure?
    ensures Collect(f, xs) == Collect(f, xs[..i])
    decreases |xs| - i
  {
    if i < |xs| {
      assert xs[..i + 1][..i] == xs[..i];
      CollectFailureStays(f, xs, i + 1);
    } else {
      assert xs[..i] == xs;
    }
  }

  /** One more element adds its item, if it has one, to the items so far. */
  lemma CollectSnoc<E, T, Err>(f: E -> Result<Option<T>, Err>, xs: seq<E>)
    requires |xs| > 0 && Collect(f, xs).Success?
    ensures Collect(f, xs[..|xs| - 1]).Success?
    ensures f(xs[|xs| - 1]).Success?
    ensures f(xs[|xs| - 1]).value.None? ==> Collect(f, xs).value == Collect(f, xs[..|xs| - 1]).value
    ensures f(xs[|xs| - 1]).value.Some? ==>
              Collect(f, xs).value == Collect(f, xs[..|xs| - 1]).value + [f(xs[|xs| - 1]).value.value]
  {
  }

  /** Every element's item is collected. */
  lemma {:induction false} CollectHas<E, T, Err>(f: E -> Result<Option<T>, Err>, xs: seq<E>, i: nat, x: T)
    requires Collect(f, xs).Success?
    requires i < |xs| && f(xs[i]) == Success(Some(x))
    ensures x in Collect(f, xs).value
    decreases |xs|
  {
    CollectSnoc(f, xs);
    var init := xs[..|xs| - 1];
    var prev := Collect(f, init).value;
    if i < |init| {
      assert init[i] == xs[i];
      CollectHas(f, init, i, x);
      assert Collect(f, xs).value[..|prev|] == prev;
    } else {
      assert Collect(f, xs).value == prev + [x];
    }
  }

  /** Every collected item is an element's item. */
  lemma {:induction false} CollectFrom<E, T, Err>(f: E -> Result<Option<T>, Err>, xs: seq<E>, x: T) returns (i: nat)
    requires Collect(f, xs).Success? && x in Collect(f, xs).value
    ensures i < |xs| && f(xs[i]) == Success(Some(x))
    decreases |xs|
  {
    CollectSnoc(f, xs);
    var init := xs[..|xs| - 1];
    if x in Collect(f, init).value {
      i := CollectFrom(f, init, x);
      assert init[i] == xs[i];
    } else {
      i := |xs| - 1;
    }
  }

  /** The collected items are exactly the items of the elements. */
  lemma CollectElements<E, T, Err>(f: E -> Result<Option<T>, Err>, xs: seq<E>)
    requires Collect(f, xs).Success?
    ensures forall x :: x in Collect(f, xs).value <==> exists i :: 0 <= i < |xs| && f(xs[i]) == Success(Some(x))
  {
    forall x | x in Collect(f, xs).value
      ensures exists i :: 0 <= i < |xs| && f(xs[i]) == Success(Some(x))
    {
      var i := CollectFrom(f, xs, x);
    }
    forall x, i | 0 <= i < |xs| && f(xs[i]) == Success(Some(x))
      ensures x in Collect(f, xs).value
    {
      CollectHas(f, xs, i, x);
    }
  }

  /** IndexFromDir's walk fails exactly at an entry whose id does not parse,
      and otherwise collects exactly the logs of the entries. */
  lemma KeptElements(cal: Calendar, entries: seq<Entry>)
    ensures Kept(cal, entries).Failure? <==>
              exists i :: 0 <= i < |entries| && ExtractWorklogIdFromPath(entries[i].path).Failure?
    ensures Kept(cal, entries).Success? ==>
              forall x :: x in Kept(cal, entries).value <==>
                exists i :: 0 <= i < |entries| && EntryLog(cal, entries[i]) == Success(Some(x))
  {
    var f := e => EntryLog(cal, e);
    CollectFails(f, entries);
    assert forall i :: 0 <= i < |entries| ==> f(entries[i]) == EntryLog(cal, entries[i]);
    if Kept(cal, entries).Success? {
      CollectElements(f, entries);
    }
  }

  /** Newest first: created_at never increases along the sequence. */
  predicate NewestFirst(logs: seq<Log>) {
    forall i, j :: 0 <= i < j < |logs| ==> logs[i].createdAt >= logs[j].createdAt
  }

  /** The std::sort of IndexFromDir: an insertion sort by created_at,
      newest first. Logs created at the same time may end up in any
      order. */
  method SortNewestFirst(a: array<Log>)
    modifies a
    ensures NewestFirst(a[..])
    ensures multiset(a[..]) == multiset(old(a[..]))
  {
    for i := 0 to a.Length
      invariant NewestFirst(a[..i])
      invariant multiset(a[..]) == multiset(old(a[..]))
    {
      InsertNewest(a, i);
    }
    assert a[..a.Length] == a[..];
  }

  /** Moves a[i] left into the newest-first prefix before it. */
  method InsertNewest(a: array<Log>, i: nat)
    requires i < a.Length && NewestFirst(a[..i])
    modifies a
    ensures NewestFirst(a[..i + 1])
    ensures multiset(a[..]) == multiset(old(a[..]))
  {
    var j: nat := i;
    ghost var cur := a[..];
    BubblingStart(cur, i);
    while j > 0 && a[j - 1].createdAt < a[j].createdAt
      invariant a[..] == cur
      invariant Bubbling(cur, i, j)
      invariant multiset(cur) == multiset(old(a[..]))
    {
      BubblingStep(cur, i, j);
      a[j - 1], a[j] := a[j], a[j - 1];
      cur := cur[j - 1 := cur[j]][j := cur[j - 1]];
      j := j - 1;
    }
    BubblingDone(cur, i, j);
  }

  /** Insertion of s[j] into the prefix up to i is under way: the prefix
      without position j is newest first, s[j] is at least as new as what
      follows it, and its neighbours are in order. */
  predicate Bubbling(s: seq<Log>, i: nat, j: nat) {
    j <= i < |s| &&
    (forall k, l :: 0 <= k < l <= i && k != j && l != j ==> s[k].createdAt >= s[l].createdAt) &&
    (forall l :: j < l <= i ==> s[j].createdAt >= s[l].createdAt) &&
    (0 < j < i ==> s[j - 1].createdAt >= s[j + 1].createdAt)
  }

  lemma BubblingStart(s: seq<Log>, i: nat)
    requires i < |s| && NewestFirst(s[..i])
    ensures Bubbling(s, i, i)
  {
    assert forall k :: 0 <= k < i ==> s[..i][k] == s[k];
  }

  lemma BubblingStep(s: seq<Log>, i: nat, j: nat)
    requires Bubbling(s, i, j) && 0 < j && s[j - 1].createdAt < s[j].createdAt
    ensures Bubbling(s[j - 1 := s[j]][j := s[j - 1]], i, j - 1)
    ensures multiset(s[j - 1 := s[j]][j := s[j - 1]]) == multiset(s)
  {
    var t := s[j - 1 := s[j]][j := s[j - 1]];
    forall k, l | 0 <= k < l <= i && k != j - 1 && l != j - 1
      ensures t[k].createdAt >= t[l].createdAt
    {
      if l == j {
        assert s[k].createdAt >= s[j - 1].createdAt;
      } else if k == j && l > j + 1 {
        assert s[j + 1].createdAt >= s[l].createdAt;
      }
    }
    forall l | j - 1 < l <= i
      ensures t[j - 1].createdAt >= t[l].createdAt
    {
    }
  }

  lemma BubblingDone(s: seq<Log>, i: nat, j: nat)
    requires Bubbling(s, i, j) && (j == 0 || s[j - 1].createdAt >= s[j].createdAt)
    ensures NewestFirst(s[..i + 1])
  {
    assert forall k :: 0 <= k <= i ==> s[..i + 1][k] == s[k];
  }

  /** IndexFromDir: collects the logs along the walk, then sorts them
      newest first. */
  method IndexFromDir(cal: Calendar, entries: seq<Entry>) returns (r: Result<seq<Log>, StoiError>)
    ensures r.Failure? <==> Kept(cal, entries).Failure?
    ensures r.Failure? ==> r == Kept(cal, entries)
    ensures r.Success? ==> multiset(r.value) == multiset(Kept(cal, entries).value) && NewestFirst(r.value)
  {
    var index: seq<Log> := [];
    for i := 0 to |entries|
      invariant Kept(cal, entries[..i]) == Success(index)
    {
      assert entries[..i + 1][..i] == entries[..i];
      var worklogId := ExtractWorklogIdFromPath(entries[i].path);
      if worklogId.Failure? {
        CollectFailureStays(e => EntryLog(cal, e), entries, i + 1);
        return Failure(worklogId.error);
      }
      if worklogId.value.None? {
        continue;
      }
      var content := entries[i].content;
      if content.None? {
        continue;
      }
      var log := Unserialize(cal, content.value);
      log := log.(id := worklogId.value.value);
      index := index + [log];
    }
    assert entries[..|entries|] == entries;
    var sorted := new Log[|index|](k requires 0 <= k < |index| => index[k]);
    assert sorted[..] == index;
    SortNewestFirst(sorted);
    r := Success(sorted[..]);
  }
}
