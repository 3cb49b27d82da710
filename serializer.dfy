/** serializer.h and serializer.cc: the human-readable text form of a work
    log. Serialize writes a date line, a tags line, the subject and the
    description; Unserialize reads text back line by line, leniently. */
module Serializer {
  import opened Wrappers
  import opened Time
  import opened Strings
  import opened StringOrder
  import opened Worklog

  /** HumanSerializer::IsTag: a line is a tag line iff it contains '='. */
  function IsTag(line: string): (r: bool)
    ensures r <==> '=' in line
  {
    FindCharFound(line, '=');
    FindFrom(line, "=", 0).Some?
  }

  /** A `name=value` line. */
  function TagLine(name: string, value: string): string
  {
    name + "=" + value
  }

  /** HumanSerializer::Serialize, written out as the code streams it. The
      text is seven lines, each ended by a line feed: the date, the tags
      joined in the set's ascending order, a blank, the trimmed subject, a
      blank, the trimmed description and a blank. The id is not written
      (SerializeIgnoresId). */
  function Serialize(cal: Calendar, log: Log): (text: string)
    ensures text == Terminated([TagLine("date", cal.format(log.createdAt)), TagLine("tags", Joined(Ordered(log.tags), ", ")),
                                "", TrimSpace(log.subject), "", TrimSpace(log.description), ""], "\n")
  {
    var date := TagLine("date", cal.format(log.createdAt));
    var tags := TagLine("tags", Joined(Ordered(log.tags), ", "));
    var subject := TrimSpace(log.subject);
    var description := TrimSpace(log.description);
    SevenLines(date, tags, subject, description, "\n");
    date + "\n" + tags + "\n" + "\n" + subject + "\n" + "\n" + description + "\n" + "\n"
  }

  /** Seven lines, every other one from the third on blank, each followed
      by the delimiter. */
  lemma SevenLines(a: string, b: string, d: string, f: string, nl: string)
    ensures Terminated([a, b, "", d, "", f, ""], nl) == a + nl + b + nl + nl + d + nl + nl + f + nl + nl
  {
    var lines := [a, b, "", d, "", f, ""];
    assert lines[2..] == ["", d] + ["", f, ""] && ["", f, ""] == ["", f] + [""];
    BlankThenLine(d, ["", f, ""], nl);
    BlankThenLine(f, [""], nl);
    BlankLine(nl);
    var last := nl + f + nl + nl;
    var t := Terminated(lines[2..], nl);
    assert t == nl + d + nl + last;
    assert Terminated(lines, nl) == (a + nl) + ((b + nl) + t);
    // Flatten the nesting one step at a time.
    var p := a + nl + b + nl;
    Regroup(a + nl, b + nl, t);
    Regroup(a + nl, b, nl);
    Regroup(p, nl + d + nl, last);
    Regroup(p, nl + d, nl);
    Regroup(p, nl, d);
    var q := p + nl + d + nl;
    Regroup(q, nl + f + nl, nl);
    Regroup(q, nl + f, nl);
    Regroup(q, nl, f);
  }

  /** A blank line and a line in front of more lines. */
  lemma BlankThenLine(x: string, rest: seq<string>, nl: string)
    ensures Terminated(["", x] + rest, nl) == nl + x + nl + Terminated(rest, nl)
  {
    assert (["", x] + rest)[1..] == [x] + rest;
    assert ([x] + rest)[1..] == rest;
  }

  /** A lone blank line is the delimiter. */
  lemma BlankLine(nl: string)
    ensures Terminated([""], nl) == nl
  {
    assert [""][1..] == [];
  }

  /** Concatenation regroups freely. */
  lemma Regroup(x: string, y: string, z: string)
    ensures x + (y + z) == x + y + z
  {
  }

  // ---------------------------------------------------------------------
  // Unserialize, one line at a time
  // ---------------------------------------------------------------------

  /** The log Unserialize starts from. */
  const Blank: Log := Log(0, "", "", 0, {})

  /** The trimmed pieces of a `tags` value. */
  function TagSet(pieces: seq<string>): set<string>
  {
    set p | p in pieces :: TrimSpace(p)
  }

  /** The trimmed name and value of a tag line, or None when the line is
      ignored: it does not split into exactly two pieces at '=' (as in
      "a=b=c" or "tags="), or its name or value is empty once trimmed. */
  function TagOf(line: string): (r: Option<(string, string)>)
    ensures r.Some? ==> r.value.0 != "" && r.value.1 != ""
  {
    var parts := Pieces(line, "=", false);
    if |parts| != 2 then None
    else
      var name := TrimSpace(parts[0]);
      var value := TrimSpace(parts[1]);
      if name == "" || value == "" then None else Some((name, value))
  }

  /** A tag line is ignored exactly when it does not split into two pieces
      at '=' or one of them is empty once trimmed; otherwise it gives the
      two trimmed pieces. */
  lemma TagOfPieces(line: string)
    ensures TagOf(line).None? <==>
              |Pieces(line, "=", false)| != 2 ||
              TrimSpace(Pieces(line, "=", false)[0]) == "" || TrimSpace(Pieces(line, "=", false)[1]) == ""
    ensures TagOf(line).Some? ==>
              TagOf(line).value == (TrimSpace(Pieces(line, "=", false)[0]), TrimSpace(Pieces(line, "=", false)[1]))
  {
  }

  /** The trimmed pieces of `[a] + ps`. */
  lemma TagSetCons(a: string, ps: seq<string>)
    ensures TagSet([a] + ps) == {TrimSpace(a)} + TagSet(ps)
  {
    forall x | x in TagSet([a] + ps) ensures x in {TrimSpace(a)} + TagSet(ps) {
      var p :| p in [a] + ps && TrimSpace(p) == x;
      if p != a {
        assert p in ps;
      }
    }
  }

  /** One more piece adds its trimmed form. */
  lemma TagSetSnoc(pieces: seq<string>, j: nat)
    requires j < |pieces|
    ensures TagSet(pieces[..j + 1]) == TagSet(pieces[..j]) + {TrimSpace(pieces[j])}
  {
    assert pieces[..j + 1] == pieces[..j] + [pieces[j]];
  }

  /** What a tag line does to the log: a `tags` tag adds the trimmed
      comma-separated pieces of its value, a `date` tag sets the time when
      its value parses; an ignored line or any other name changes nothing. */
  function ApplyTag(cal: Calendar, log: Log, tag: Option<(string, string)>): Log
  {
    match tag
    case None => log
    case Some((name, value)) =>
      if name == "tags" then log.(tags := log.tags + TagSet(Pieces(value, ",", false)))
      else if name == "date" then log.(createdAt := cal.parse(value).GetOr(log.createdAt))
      else log
  }

  /** The time a line sets: the parsed value of a `date` line whose value
      parses, None for any other line. */
  function DateOf(cal: Calendar, line: string): Option<nat>
  {
    match TagOf(line)
    case Some((name, value)) => if name == "date" then cal.parse(value) else None
    case None => None
  }

  /** What Unserialize's loop does with one line: a tag line adds tags or
      sets the date; the first other line, while the subject is empty,
      becomes the subject as it is; every later one is appended to the
      description with a line feed. */
  function ParseLine(cal: Calendar, log: Log, line: string): Log
  {
    if IsTag(line) then ApplyTag(cal, log, TagOf(line))
    else if log.subject == "" then log.(subject := line)
    else log.(description := log.description + line + "\n")
  }

  /** A tag line changes nothing when it does not split into exactly two
      pieces at '=', when its name or value is empty once trimmed, or when
      its name is neither `tags` nor `date`. */
  lemma IgnoredTagLine(cal: Calendar, log: Log, line: string)
    requires '=' in line
    requires |Pieces(line, "=", false)| != 2 ||
             TrimSpace(Pieces(line, "=", false)[0]) == "" || TrimSpace(Pieces(line, "=", false)[1]) == "" ||
             TrimSpace(Pieces(line, "=", false)[0]) !in {"tags", "date"}
    ensures ParseLine(cal, log, line) == log
  {
  }

  /** A line with two '=' splits into three pieces and is ignored. */
  lemma ThreePiecesIgnored(cal: Calendar, log: Log)
    ensures |Pieces("a=b=c", "=", false)| == 3
    ensures ParseLine(cal, log, "a=b=c") == log
  {
    SplitWhole("c", '=', false);
    SplitCons("b", '=', "c", false);
    assert "b=c" == "b" + ['='] + "c";
    SplitCons("a", '=', "b=c", false);
    assert "a=b=c" == "a" + ['='] + "b=c";
    IgnoredTagLine(cal, log, "a=b=c");
  }

  /** The log after parsing `lines` in order, starting from `log`. Parsing
      never changes the id, only adds tags, keeps a subject once set and
      only extends the description. */
  function Fold(cal: Calendar, log: Log, lines: seq<string>): (r: Log)
    ensures r.id == log.id
    ensures log.tags <= r.tags
    ensures log.subject != "" ==> r.subject == log.subject
    ensures |log.description| <= |r.description| && r.description[..|log.description|] == log.description
    decreases |lines|
  {
    if |lines| == 0 then log
    else
      ParseLineKeeps(cal, log, lines[0]);
      Fold(cal, ParseLine(cal, log, lines[0]), lines[1..])
  }

  /** One line keeps the id, only adds tags, keeps a subject once set and
      only extends the description. */
  lemma ParseLineKeeps(cal: Calendar, log: Log, line: string)
    ensures ParseLine(cal, log, line).id == log.id
    ensures log.tags <= ParseLine(cal, log, line).tags
    ensures log.subject != "" ==> ParseLine(cal, log, line).subject == log.subject
    ensures ParseLine(cal, log, line).description[..|log.description|] == log.description
  {
  }

  /** The time only changes to the value of some `date` line that parses. */
  lemma {:induction false} FoldDate(cal: Calendar, log: Log, lines: seq<string>)
    ensures Fold(cal, log, lines).createdAt == log.createdAt ||
            exists line :: line in lines && DateOf(cal, line) == Some(Fold(cal, log, lines).createdAt)
    decreases |lines|
  {
    if |lines| > 0 {
      var next := ParseLine(cal, log, lines[0]);
      FoldDate(cal, next, lines[1..]);
      if next.createdAt != log.createdAt {
        assert DateOf(cal, lines[0]) == Some(next.createdAt);
      }
    }
  }

  /** The log Unserialize returns for `text`: its id is 0, and its time
      is 0 unless some `date` line of the text parses to it. */
  function Unserialized(cal: Calendar, text: string): (r: Log)
    ensures r.id == 0
    ensures r.createdAt == 0 ||
            exists line :: line in Pieces(text, "\n", false) && DateOf(cal, line) == Some(r.createdAt)
  {
    FoldDate(cal, Blank, Pieces(text, "\n", false));
    Fold(cal, Blank, Pieces(text, "\n", false))
  }

  /** A tag line never changes the subject or the description. */
  lemma TagLineKeepsText(cal: Calendar, log: Log, line: string)
    requires '=' in line
    ensures ParseLine(cal, log, line).subject == log.subject
    ensures ParseLine(cal, log, line).description == log.description
  {
  }

  /** Only a tag line can add tags or set the date. */
  lemma OnlyTagLinesSetData(line: string)
    ensures TagOf(line).Some? ==> '=' in line
  {
    if '=' !in line {
      if |line| > 0 {
        SplitWhole(line, '=', false);
      }
    }
  }

  /** The subject Unserialize finds: the first line that is neither a tag
      line nor empty, or "" when there is none. */
  function FirstText(lines: seq<string>): string
  {
    if |lines| == 0 then ""
    else if '=' !in lines[0] && lines[0] != "" then lines[0]
    else FirstText(lines[1..])
  }

  /** The lines after the one that became the subject. */
  function AfterFirstText(lines: seq<string>): seq<string>
  {
    if |lines| == 0 then []
    else if '=' !in lines[0] && lines[0] != "" then lines[1..]
    else AfterFirstText(lines[1..])
  }

  /** The lines that are not tag lines, in order. */
  function NonTags(lines: seq<string>): seq<string>
  {
    if |lines| == 0 then []
    else (if '=' in lines[0] then [] else [lines[0]]) + NonTags(lines[1..])
  }

  /** Parsing text lines once the subject is set appends each of them, with
      a line feed, to the description; tag lines there add nothing to it. */
  lemma {:induction false} FoldDescription(cal: Calendar, log: Log, lines: seq<string>)
    requires log.subject != ""
    ensures Fold(cal, log, lines).description == log.description + Terminated(NonTags(lines), "\n")
    decreases |lines|
  {
    if |lines| > 0 {
      var next := ParseLine(cal, log, lines[0]);
      FoldDescription(cal, next, lines[1..]);
      var rest := NonTags(lines[1..]);
      if '=' !in lines[0] {
        assert ([lines[0]] + rest)[1..] == rest;
      } else {
        assert [] + rest == rest;
      }
    }
  }

  /** Parsing from an empty subject: the subject is the first text line and
      the description collects the text lines after it. */
  lemma {:induction false} FoldSubject(cal: Calendar, log: Log, lines: seq<string>)
    requires log.subject == ""
    ensures Fold(cal, log, lines).subject == FirstText(lines)
    ensures Fold(cal, log, lines).description == log.description + Terminated(NonTags(AfterFirstText(lines)), "\n")
    decreases |lines|
  {
    if |lines| > 0 {
      var next := ParseLine(cal, log, lines[0]);
      if '=' !in lines[0] && lines[0] != "" {
        FoldDescription(cal, next, lines[1..]);
      } else {
        FoldSubject(cal, next, lines[1..]);
      }
    }
  }

  /** What Unserialize makes of any text: the subject is its first text
      line, untrimmed, and the description is every later text line, each
      followed by a line feed. */
  lemma UnserializedText(cal: Calendar, text: string)
    ensures Unserialized(cal, text).subject == FirstText(Pieces(text, "\n", false))
    ensures Unserialized(cal, text).description ==
              Terminated(NonTags(AfterFirstText(Pieces(text, "\n", false))), "\n")
  {
    FoldSubject(cal, Blank, Pieces(text, "\n", false));
  }

  // ---------------------------------------------------------------------
  // Round trip
  // ---------------------------------------------------------------------

  /** Parsing two runs of lines is parsing the first, then the second. */
  lemma {:induction false} FoldAppend(cal: Calendar, log: Log, a: seq<string>, b: seq<string>)
    ensures Fold(cal, log, a + b) == Fold(cal, Fold(cal, log, a), b)
    decreases |a|
  {
    if |a| > 0 {
      assert (a + b)[1..] == a[1..] + b;
      FoldAppend(cal, ParseLine(cal, log, a[0]), a[1..], b);
    } else {
      assert a + b == b;
    }
  }

  /** Text lines after the subject leave the tags, the time and the subject
      alone. */
  lemma {:induction false} FoldTextKeepsData(cal: Calendar, log: Log, lines: seq<string>)
    requires log.subject != ""
    requires forall line :: line in lines ==> '=' !in line
    ensures Fold(cal, log, lines).subject == log.subject
    ensures Fold(cal, log, lines).tags == log.tags
    ensures Fold(cal, log, lines).createdAt == log.createdAt
    ensures NonTags(lines) == lines
    decreases |lines|
  {
    if |lines| > 0 {
      assert lines[0] in lines;
      FoldTextKeepsData(cal, ParseLine(cal, log, lines[0]), lines[1..]);
      assert NonTags(lines) == [lines[0]] + NonTags(lines[1..]);
      assert lines == [lines[0]] + lines[1..];
    }
  }

  /** A tag Serialize writes and Unserialize reads back unchanged: trimmed,
      non-empty, and free of ',', '=' and line feeds. */
  predicate PlainTag(t: string) {
    Trimmed(t) && ',' !in t && '=' !in t && '\n' !in t
  }

  /** A character in no item and not in the delimiter is not in the join. */
  lemma {:induction false} JoinedAvoids(items: seq<string>, delim: string, c: char)
    requires c !in delim
    requires forall x :: x in items ==> c !in x
    ensures c !in Joined(items, delim)
    decreases |items|
  {
    if |items| > 1 {
      JoinedAvoids(items[1..], delim, c);
    }
  }

  /** The join of non-empty items starts with the first item's first
      character and ends with the last item's last character. */
  lemma {:induction false} JoinedEnds(items: seq<string>, delim: string)
    requires |items| > 0 && forall k :: 0 <= k < |items| ==> |items[k]| > 0
    ensures |Joined(items, delim)| > 0
    ensures Joined(items, delim)[0] == items[0][0]
    ensures Joined(items, delim)[|Joined(items, delim)| - 1] == items[|items| - 1][|items[|items| - 1]| - 1]
    decreases |items|
  {
    if |items| > 1 {
      var rest := items[1..];
      JoinedEnds(rest, delim);
      var j := Joined(rest, delim);
      assert Joined(items, delim) == items[0] + delim + j;
      assert rest[|rest| - 1] == items[|items| - 1];
    }
  }

  /** The blank Join puts after a comma goes away when trimming. */
  lemma TrimBlankPrefix(pre: string, t: string)
    requires pre == "" || pre == " "
    requires Trimmed(t)
    ensures TrimSpace(pre + t) == t
  {
    assert AllIn(pre, Whitespace) by {
      if pre == " " {
        assert pre[0] == ' ';
      }
    }
    TrimAround(pre, t, "", Whitespace);
    assert pre + t + "" == pre + t;
  }

  /** A single plain tag, after an optional blank, reads back as itself. */
  lemma TagsOfSingle(pre: string, t: string)
    requires (pre == "" || pre == " ") && PlainTag(t)
    ensures TagSet(Pieces(pre + t, ",", false)) == {t}
  {
    SplitWhole(pre + t, ',', false);
    TagSetCons(pre + t, []);
    assert [pre + t] + [] == [pre + t];
    TrimBlankPrefix(pre, t);
  }

  /** A plain tag, after an optional blank, followed by a comma reads back
      as itself, then as what follows the comma reads. */
  lemma TagsOfCons(pre: string, t: string, rest: string)
    requires (pre == "" || pre == " ") && PlainTag(t)
    ensures TagSet(Pieces(pre + t + "," + rest, ",", false)) == {t} + TagSet(Pieces(rest, ",", false))
  {
    var first := pre + t;
    assert ',' !in first;
    SplitCons(first, ',', rest, false);
    TagSetCons(first, Pieces(rest, ",", false));
    TrimBlankPrefix(pre, t);
  }

  /** A tag list of two or more items: the first, a comma, then a blank
      and the rest. */
  lemma JoinedTags(items: seq<string>, pre: string)
    requires |items| > 1
    ensures pre + Joined(items, ", ") == pre + items[0] + "," + (" " + Joined(items[1..], ", "))
  {
    var j := Joined(items[1..], ", ");
    calc {
      pre + Joined(items, ", ");
      pre + (items[0] + ", " + j);
      { assert ", " == "," + " "; }
      pre + items[0] + "," + (" " + j);
    }
  }

  /** The elements of a non-empty list: its head and those of its tail. */
  lemma ElementsCons(items: seq<string>)
    requires |items| > 0
    ensures (set x | x in items) == {items[0]} + (set x | x in items[1..])
  {
    assert items == [items[0]] + items[1..];
  }

  /** Splitting a joined tag list at ',' and trimming every piece gives the
      tags back; `pre` is the blank that follows each comma. */
  lemma {:induction false} TagsOfJoined(items: seq<string>, pre: string)
    requires |items| > 0 && (pre == "" || pre == " ")
    requires forall x :: x in items ==> PlainTag(x)
    ensures TagSet(Pieces(pre + Joined(items, ", "), ",", false)) == set x | x in items
    decreases |items|
  {
    assert items[0] in items;
    if |items| == 1 {
      TagsOfSingle(pre, items[0]);
      assert items == [items[0]];
    } else {
      var rest := " " + Joined(items[1..], ", ");
      calc {
        TagSet(Pieces(pre + Joined(items, ", "), ",", false));
        { JoinedTags(items, pre); }
        TagSet(Pieces(pre + items[0] + "," + rest, ",", false));
        { TagsOfCons(pre, items[0], rest); }
        ({items[0]} + TagSet(Pieces(rest, ",", false)));
        { TagsOfJoined(items[1..], " "); }
        ({items[0]} + (set x | x in items[1..]));
        { ElementsCons(items); }
        set x | x in items;
      }
    }
  }

  /** A line `name=value` with plain name and value is a tag line read as
      that pair. */
  lemma TagOfTagLine(name: string, value: string)
    requires Trimmed(name) && '=' !in name
    requires Trimmed(value) && '=' !in value
    ensures IsTag(TagLine(name, value))
    ensures TagOf(TagLine(name, value)) == Some((name, value))
  {
    var line := TagLine(name, value);
    assert line[|name|] == '=';
    TagLinePieces(name, value);
    var parts := Pieces(line, "=", false);
    assert parts[0] == name && parts[1] == value;
    TrimSpaceOfTrimmed(name);
    TrimSpaceOfTrimmed(value);
  }

  /** A tag line with a plain name and value splits at its '=' into the two. */
  lemma TagLinePieces(name: string, value: string)
    requires value != "" && '=' !in name && '=' !in value
    ensures Pieces(TagLine(name, value), "=", false) == [name, value]
  {
    calc {
      Pieces(TagLine(name, value), "=", false);
      { assert TagLine(name, value) == name + ['='] + value; }
      Pieces(name + ['='] + value, ['='], false);
      { SplitCons(name, '=', value, false); }
      [name] + Pieces(value, ['='], false);
      { SplitWhole(value, '=', false); }
      [name] + [value];
    }
  }

  /** The conditions under which Serialize's output parses back: the
      formatted date is a plain word, the trimmed subject is non-empty and
      one line without '=', the trimmed description has no '=', and every
      tag is plain. */
  predicate Serializable(cal: Calendar, r: Log) {
    var f := cal.format(r.createdAt);
    var subject := TrimSpace(r.subject);
    Trimmed(f) && '=' !in f && '\n' !in f &&
    subject != "" && '=' !in subject && '\n' !in subject &&
    '=' !in TrimSpace(r.description) &&
    forall t :: t in r.tags ==> PlainTag(t)
  }

  /** The seven-line layout of Serialize splits back into its first five
      lines and the lines of the last two, when the first lines hold no
      line feed. */
  lemma LayoutLines(a: string, b: string, subject: string, d: string)
    requires '\n' !in a && '\n' !in b && '\n' !in subject
    ensures Pieces(Terminated([a, b, "", subject, "", d, ""], "\n"), "\n", false) ==
              [a, b, "", subject, ""] + Pieces(d + "\n\n", "\n", false)
  {
    var header := [a, b, "", subject, ""];
    calc {
      Pieces(Terminated([a, b, "", subject, "", d, ""], "\n"), "\n", false);
      { assert header + [d, ""] == [a, b, "", subject, "", d, ""]; }
      Pieces(Terminated(header + [d, ""], "\n"), "\n", false);
      { TerminatedAppend(header, [d, ""], "\n");
        assert [d, ""][1..] == [""] && [""][1..] == [];
        assert Terminated([""], "\n") == "\n";
        assert Terminated([d, ""], "\n") == d + "\n\n"; }
      Pieces(Terminated(header, "\n") + (d + "\n\n"), "\n", false);
      { SplitAfterTerminated(header, '\n', d + "\n\n"); }
      header + Pieces(d + "\n\n", "\n", false);
    }
  }

  /** The lines of Serialize's output: the date line, the tags line, a
      blank, the subject, a blank, then the lines of the description. */
  lemma SerializedLines(cal: Calendar, r: Log)
    requires Serializable(cal, r)
    ensures Pieces(Serialize(cal, r), "\n", false) ==
              [TagLine("date", cal.format(r.createdAt)), TagLine("tags", Joined(Ordered(r.tags), ", ")), "",
               TrimSpace(r.subject), ""] +
              Pieces(TrimSpace(r.description) + "\n\n", "\n", false)
  {
    assert '\n' !in cal.format(r.createdAt);
    TagLineAvoids("date", cal.format(r.createdAt), '\n');
    TagsLineAvoids(r.tags, '\n');
    LayoutLines(TagLine("date", cal.format(r.createdAt)), TagLine("tags", Joined(Ordered(r.tags), ", ")),
                TrimSpace(r.subject), TrimSpace(r.description));
  }

  /** The tags line holds no character that no tag holds, other than `=`,
      the comma and the blank. */
  lemma TagsLineAvoids(tags: set<string>, c: char)
    requires c !in "tags=, "
    requires forall t :: t in tags ==> c !in t
    ensures c !in TagLine("tags", Joined(Ordered(tags), ", "))
  {
    JoinedAvoids(Ordered(tags), ", ", c);
    TagLineAvoids("tags", Joined(Ordered(tags), ", "), c);
  }

  /** A character in neither the name nor the value, and not `=`, is not in
      the line. */
  lemma TagLineAvoids(name: string, value: string, c: char)
    requires c !in name && c != '=' && c !in value
    ensures c !in TagLine(name, value)
  {
  }

  /** A `date` line with a plain value sets the time to what the value
      parses to, or leaves it when the value does not parse. */
  lemma DateLine(cal: Calendar, log: Log, f: string)
    requires Trimmed(f) && '=' !in f
    ensures ParseLine(cal, log, TagLine("date", f)) == log.(createdAt := cal.parse(f).GetOr(log.createdAt))
  {
    assert "date"[0] == 'd' && "date"[3] == 'e';
    TagOfTagLine("date", f);
  }

  /** The `tags` line Serialize writes adds exactly its tags; with no tags
      the line is ignored. */
  lemma TagsLine(cal: Calendar, log: Log, items: seq<string>)
    requires forall x :: x in items ==> PlainTag(x)
    ensures ParseLine(cal, log, TagLine("tags", Joined(items, ", "))) == log.(tags := log.tags + set x | x in items)
  {
    var j := Joined(items, ", ");
    if |items| == 0 {
      assert TagLine("tags", j)[4] == '=';
      SplitCons("tags", '=', "", false);
      assert "tags" + "=" + "" == TagLine("tags", j);
      assert (set x | x in items) == {};
    } else {
      assert forall k :: 0 <= k < |items| ==> |items[k]| > 0 by {
        forall k | 0 <= k < |items| ensures |items[k]| > 0 {
          assert items[k] in items;
        }
      }
      assert items[0] in items && items[|items| - 1] in items;
      JoinedEnds(items, ", ");
      JoinedAvoids(items, ", ", '=');
      assert "tags"[0] == 't' && "tags"[3] == 's';
      TagOfTagLine("tags", j);
      TagsOfJoined(items, "");
      assert "" + j == j;
    }
  }

  /** A blank, the subject and a blank, read while no subject is set, set
      the subject and put one line feed in the description. */
  lemma SubjectLines(cal: Calendar, log: Log, subject: string)
    requires log.subject == "" && subject != "" && '=' !in subject
    ensures Fold(cal, log, ["", subject, ""]) ==
              log.(subject := subject, description := log.description + "\n")
  {
    var named := log.(subject := subject);
    assert ParseLine(cal, log, "") == log;
    calc {
      Fold(cal, log, ["", subject, ""]);
      { assert ["", subject, ""][1..] == [subject, ""]; }
      Fold(cal, log, [subject, ""]);
      { assert [subject, ""][1..] == [""]; }
      Fold(cal, named, [""]);
      { assert [""][1..] == []; }
      named.(description := log.description + "\n");
    }
  }

  /** The five header lines leave the subject set, a line feed in the
      description, the parsed date and the tags. */
  lemma HeaderFold(cal: Calendar, r: Log)
    requires Serializable(cal, r)
    ensures Fold(cal, Blank, [TagLine("date", cal.format(r.createdAt)), TagLine("tags", Joined(Ordered(r.tags), ", ")),
                               "", TrimSpace(r.subject), ""]) ==
            Log(0, TrimSpace(r.subject), "\n", cal.parse(cal.format(r.createdAt)).GetOr(0), r.tags)
  {
    OrderedElements(r.tags);
    HeaderLines(cal, cal.format(r.createdAt), Ordered(r.tags), r.tags, TrimSpace(r.subject));
  }

  /** The header lines for a plain date, a list of plain tags and a subject,
      read from a blank record. */
  lemma HeaderLines(cal: Calendar, f: string, items: seq<string>, tags: set<string>, subject: string)
    requires Trimmed(f) && '=' !in f
    requires forall x :: x in items ==> PlainTag(x)
    requires (set x | x in items) == tags
    requires subject != "" && '=' !in subject
    ensures Fold(cal, Blank, [TagLine("date", f), TagLine("tags", Joined(items, ", ")), "", subject, ""]) ==
            Log(0, subject, "\n", cal.parse(f).GetOr(0), tags)
  {
    var t := TagLine("tags", Joined(items, ", "));
    var log1 := Blank.(createdAt := cal.parse(f).GetOr(0));
    var log2 := log1.(tags := tags);
    calc {
      Fold(cal, Blank, [TagLine("date", f), t, "", subject, ""]);
      { DateLine(cal, Blank, f);
        assert [TagLine("date", f), t, "", subject, ""][1..] == [t, "", subject, ""]; }
      Fold(cal, log1, [t, "", subject, ""]);
      { TagsLine(cal, log1, items);
        assert log1.tags + (set x | x in items) == tags;
        assert [t, "", subject, ""][1..] == ["", subject, ""]; }
      Fold(cal, log2, ["", subject, ""]);
      { SubjectLines(cal, log2, subject); }
      log2.(subject := subject, description := "\n");
    }
  }

  /** The description lines Serialize writes, read once the subject is set,
      append the description and its two line feeds and change nothing else. */
  lemma BodyFold(cal: Calendar, head: Log, d: string)
    requires head.subject != "" && '=' !in d
    ensures Fold(cal, head, Pieces(d + "\n\n", "\n", false)) ==
              head.(description := head.description + d + "\n\n")
  {
    var rest := d + "\n\n";
    var body := Pieces(rest, "\n", false);
    forall line | line in body ensures '=' !in line {
      SplitPiecesChars(rest, "\n", false);
    }
    FoldTextKeepsData(cal, head, body);
    FoldDescription(cal, head, body);
    SplitTerminatedRoundTrip(rest, '\n');
  }

  /** Round trip: what Serialize writes, Unserialize reads back with id 0,
      the trimmed subject, the same tags, the trimmed description between a
      leading line feed and two trailing ones, and the time the formatted
      date parses to. */
  lemma RoundTrip(cal: Calendar, r: Log)
    requires Serializable(cal, r)
    ensures Unserialized(cal, Serialize(cal, r)) ==
              Log(0, TrimSpace(r.subject), "\n" + TrimSpace(r.description) + "\n\n",
                  cal.parse(cal.format(r.createdAt)).GetOr(0), r.tags)
  {
    var d := TrimSpace(r.description);
    var header := [TagLine("date", cal.format(r.createdAt)), TagLine("tags", Joined(Ordered(r.tags), ", ")),
                   "", TrimSpace(r.subject), ""];
    var body := Pieces(d + "\n\n", "\n", false);
    var head := Log(0, TrimSpace(r.subject), "\n", cal.parse(cal.format(r.createdAt)).GetOr(0), r.tags);
    calc {
      Unserialized(cal, Serialize(cal, r));
      Fold(cal, Blank, Pieces(Serialize(cal, r), "\n", false));
      { SerializedLines(cal, r); }
      Fold(cal, Blank, header + body);
      { FoldAppend(cal, Blank, header, body); }
      Fold(cal, Fold(cal, Blank, header), body);
      { HeaderFold(cal, r); }
      Fold(cal, head, body);
      { BodyFold(cal, head, d); }
      head.(description := "\n" + d + "\n\n");
    }
  }

  /** The subject survives a round trip, trimmed. */
  lemma SubjectRoundTrip(cal: Calendar, r: Log)
    requires Serializable(cal, r)
    ensures Unserialized(cal, Serialize(cal, r)).subject == TrimSpace(r.subject)
  {
    RoundTrip(cal, r);
  }

  /** Plain tags survive a round trip. */
  lemma TagsRoundTrip(cal: Calendar, r: Log)
    requires Serializable(cal, r)
    ensures Unserialized(cal, Serialize(cal, r)).tags == r.tags
  {
    RoundTrip(cal, r);
  }

  /** A description with some text survives a round trip up to white space
      at its ends. */
  lemma DescriptionRoundTrip(cal: Calendar, r: Log)
    requires Serializable(cal, r) && !AllIn(r.description, Whitespace)
    ensures TrimSpace(Unserialized(cal, Serialize(cal, r)).description) == TrimSpace(r.description)
  {
    RoundTrip(cal, r);
    var d := TrimSpace(r.description);
    assert AllIn("\n", Whitespace) && AllIn("\n\n", Whitespace);
    TrimAround("\n", d, "\n\n", Whitespace);
  }

  /** An empty description does not come back empty: Unserialize appends
      the blank line before it and the two after it, and trimming a text
      of whitespace only leaves it as it is. */
  lemma EmptyDescriptionNotRestored(cal: Calendar, r: Log)
    requires Serializable(cal, r) && r.description == ""
    ensures Unserialized(cal, Serialize(cal, r)).description == "\n\n\n"
    ensures TrimSpace(Unserialized(cal, Serialize(cal, r)).description) != TrimSpace(r.description)
  {
    RoundTrip(cal, r);
    assert AllIn("\n\n\n", Whitespace);
  }

  /** The time survives a round trip when parsing inverts formatting. */
  lemma DateRoundTrip(cal: Calendar, r: Log)
    requires Serializable(cal, r)
    requires cal.parse(cal.format(r.createdAt)) == Some(r.createdAt)
    ensures Unserialized(cal, Serialize(cal, r)).createdAt == r.createdAt
  {
    RoundTrip(cal, r);
  }

  /** Serialize does not write the id. */
  lemma SerializeIgnoresId(cal: Calendar, r: Log, id: int)
    ensures Serialize(cal, r.(id := id)) == Serialize(cal, r)
  {
  }

  /** The inner loop of Unserialize: inserts each trimmed piece. */
  method InsertTrimmed(tags: set<string>, values: seq<string>) returns (r: set<string>)
    ensures r == tags + TagSet(values)
  {
    r := tags;
    for j := 0 to |values|
      invariant r == tags + TagSet(values[..j])
    {
      TagSetSnoc(values, j);
      r := r + {TrimSpace(values[j])};
    }
    assert values[..|values|] == values;
  }

  /** The tag-line branch of Unserialize's loop. */
  method ApplyTagLine(cal: Calendar, log: Log, bit: string) returns (r: Log)
    requires '=' in bit
    ensures r == ParseLine(cal, log, bit)
  {
    r := log;
    var tag := Split(bit, "=");
    if |tag| != 2 {
      return;
    }
    var name := TrimSpace(tag[0]);
    var value := TrimSpace(tag[1]);
    if name == "" || value == "" {
      return;
    }
    assert TagOf(bit) == Some((name, value));
    if name == "tags" {
      var values := Split(value, ",");
      var tags := InsertTrimmed(r.tags, values);
      r := r.(tags := tags);
    } else if name == "date" {
      var time := cal.parse(value);
      if time.None? {
        return;
      }
      r := r.(createdAt := time.value);
    }
  }

  /** HumanSerializer::Unserialize. */
  method Unserialize(cal: Calendar, text: string) returns (log: Log)
    ensures log == Unserialized(cal, text)
  {
    log := Blank;
    var lines := Split(text, "\n", false);
    for i := 0 to |lines|
      invariant Fold(cal, log, lines[i..]) == Fold(cal, Blank, lines)
    {
      var bit := lines[i];
      assert lines[i..] == [bit] + lines[i + 1..];
      if IsTag(bit) {
        log := ApplyTagLine(cal, log, bit);
      } else if log.subject == "" {
        log := log.(subject := bit);
      } else {
        log := log.(description := log.description + bit + "\n");
      }
    }
  }
}
