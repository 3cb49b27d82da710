/** filter.cc: the search query, the predicates built from it, and the
    in-place filtering of a list of work logs. */
module Filters {
  import opened Time
  import opened GtlStatus
  import opened Strings
  import opened Worklog

  /** A parsed query: tags a log should carry, tags it should not carry,
      and a text its subject should contain. */
  datatype Filter = Filter(tags: set<string>, tagsNegative: set<string>, subject: string)

  /** The default-initialised Filter. */
  const EmptyFilter: Filter := Filter({}, {}, "")

  // ---------------------------------------------------------------------
  // ParseFilter
  // ---------------------------------------------------------------------

  /** What one token of the query asks for. */
  datatype Query = TagQuery(negated: bool, value: string) | SubjectQuery(value: string) | Ignored

  /** The meaning of one token: split on ':' with empty pieces dropped it
      must give exactly a key and a value; one leading '-' is stripped from
      the key and marks negation; only the keys `tag` and `subject` mean
      something, and negation does not change what `subject` does. */
  function QueryOf(token: string): Query {
    var kv := Pieces(token, ":", true);
    if |kv| != 2 then Ignored
    else
      var negated := |kv[0]| > 0 && kv[0][0] == '-';
      var key := if negated then kv[0][1..] else kv[0];
      if key == "tag" then TagQuery(negated, kv[1])
      else if key == "subject" then SubjectQuery(kv[1])
      else Ignored
  }

  /** A token means something only when it splits into a key and a value;
      the key is `tag`, `-tag`, `subject` or `-subject`, and the value is
      the second piece. */
  lemma QueryOfShape(token: string)
    ensures var q := QueryOf(token);
            var kv := Pieces(token, ":", true);
            (q.TagQuery? || q.SubjectQuery? ==> |kv| == 2 && q.value == kv[1]) &&
            (q.TagQuery? ==> kv[0] == if q.negated then "-tag" else "tag") &&
            (q.SubjectQuery? ==> kv[0] == "subject" || kv[0] == "-subject")
  {
    var kv := Pieces(token, ":", true);
    if |kv| == 2 && |kv[0]| > 0 && kv[0][0] == '-' {
      assert kv[0] == "-" + kv[0][1..];
    }
  }

  /** What a token does to the filter built so far. */
  function ApplyQuery(f: Filter, q: Query): Filter {
    match q
    case TagQuery(negated, v) =>
      if negated then f.(tagsNegative := f.tagsNegative + {v}) else f.(tags := f.tags + {v})
    case SubjectQuery(v) => f.(subject := v)
    case Ignored => f
  }

  /** The filter a sequence of queries builds, applied left to right. */
  function Build(qs: seq<Query>): Filter
    decreases |qs|
  {
    if |qs| == 0 then EmptyFilter
    else ApplyQuery(Build(qs[..|qs| - 1]), qs[|qs| - 1])
  }

  /** The meaning of each token. */
  function QueriesOf(tokens: seq<string>): (qs: seq<Query>)
    ensures |qs| == |tokens| && forall i :: 0 <= i < |tokens| ==> qs[i] == QueryOf(tokens[i])
  {
    seq(|tokens|, i requires 0 <= i < |tokens| => QueryOf(tokens[i]))
  }

  /** ParseFilter: the tokens are the pieces of the text split on single
      blanks with empty pieces dropped; each is read as a query. */
  method ParseFilter(text: string) returns (filter: Filter)
    ensures filter == Build(QueriesOf(Pieces(text, " ", true)))
  {
    filter := EmptyFilter;
    var queries := Split(text, " ", true);
    ghost var qs := QueriesOf(queries);
    for i := 0 to |queries|
      invariant filter == Build(qs[..i])
    {
      assert qs[..i + 1][..i] == qs[..i];
      var keyValue := Split(queries[i], ":", true);
      if |keyValue| != 2 {
        continue;
      }
      var isNegated := false;
      var key := keyValue[0];
      if |key| > 0 && key[0] == '-' {
        key := key[1..];
        isNegated := true;
      }
      var value := keyValue[1];
      if key == "tag" {
        if isNegated {
          filter := filter.(tagsNegative := filter.tagsNegative + {value});
          continue;
        }
        filter := filter.(tags := filter.tags + {value});
      } else if key == "subject" {
        filter := filter.(subject := value);
      }
    }
    assert qs[..|queries|] == qs;
  }

  /** The required tags are the values of the plain `tag` queries. */
  lemma {:induction false} BuildTags(qs: seq<Query>)
    ensures Build(qs).tags == set q | q in qs && q.TagQuery? && !q.negated :: q.value
    decreases |qs|
  {
    if |qs| > 0 {
      BuildTags(qs[..|qs| - 1]);
      assert qs == qs[..|qs| - 1] + [qs[|qs| - 1]];
    }
  }

  /** The excluded tags are the values of the `-tag` queries. */
  lemma {:induction false} BuildNegativeTags(qs: seq<Query>)
    ensures Build(qs).tagsNegative == set q | q in qs && q.TagQuery? && q.negated :: q.value
    decreases |qs|
  {
    if |qs| > 0 {
      BuildNegativeTags(qs[..|qs| - 1]);
      assert qs == qs[..|qs| - 1] + [qs[|qs| - 1]];
    }
  }

  /** The subject is the value of the last subject query, and empty when
      there is none. */
  lemma {:induction false} BuildSubject(qs: seq<Query>)
    ensures (forall i :: 0 <= i < |qs| ==> !qs[i].SubjectQuery?) ==> Build(qs).subject == ""
    ensures forall i :: 0 <= i < |qs| && qs[i].SubjectQuery? &&
                        (forall j :: i < j < |qs| ==> !qs[j].SubjectQuery?) ==>
                          Build(qs).subject == qs[i].value
    decreases |qs|
  {
    if |qs| > 0 {
      var n := |qs| - 1;
      var init := qs[..n];
      BuildSubject(init);
      if !qs[n].SubjectQuery? {
        assert Build(qs).subject == Build(init).subject;
        assert forall i :: 0 <= i < n ==> init[i] == qs[i];
      }
    }
  }

  /** A token `key:value` with a plain key and value: the key and the value. */
  lemma KeyValuePieces(key: string, value: string)
    requires key != "" && value != "" && ':' !in key && ':' !in value
    ensures Pieces(key + ":" + value, ":", true) == [key, value]
  {
    calc {
      Pieces(key + ":" + value, ":", true);
      { SplitCons(key, ':', value, true); }
      [key] + Pieces(value, ":", true);
      { SplitWhole(value, ':', true); }
      [key] + [value];
    }
  }

  /** `tag:v` asks for the tag v and `-tag:v` excludes it. */
  lemma TagTokens(v: string)
    requires v != "" && ':' !in v
    ensures QueryOf("tag:" + v) == TagQuery(false, v)
    ensures QueryOf("-tag:" + v) == TagQuery(true, v)
  {
    assert QueryOf("tag:" + v) == TagQuery(false, v) by {
      assert "tag:" + v == "tag" + ":" + v;
      KeyValuePieces("tag", v);
    }
    assert QueryOf("-tag:" + v) == TagQuery(true, v) by {
      assert "-tag:" + v == "-tag" + ":" + v;
      KeyValuePieces("-tag", v);
      assert "-tag"[1..] == "tag";
    }
  }

  /** `subject:v` and `-subject:v` both set the subject to v. */
  lemma SubjectTokens(v: string)
    requires v != "" && ':' !in v
    ensures QueryOf("subject:" + v) == SubjectQuery(v)
    ensures QueryOf("-subject:" + v) == SubjectQuery(v)
  {
    assert QueryOf("subject:" + v) == SubjectQuery(v) by {
      assert "subject:" + v == "subject" + ":" + v;
      KeyValuePieces("subject", v);
    }
    assert QueryOf("-subject:" + v) == SubjectQuery(v) by {
      assert "-subject:" + v == "-subject" + ":" + v;
      KeyValuePieces("-subject", v);
      assert "-subject"[1..] == "subject";
    }
  }

  /** A doubled ':' counts as one: `tag::v` means `tag:v`. */
  lemma DoubleColon(v: string)
    requires v != "" && ':' !in v
    ensures QueryOf("tag::" + v) == TagQuery(false, v)
  {
    calc {
      Pieces("tag::" + v, ":", true);
      { assert "tag::" + v == "tag" + [':'] + ("" + [':'] + v); }
      Pieces("tag" + [':'] + ("" + [':'] + v), [':'], true);
      { SplitCons("tag", ':', "" + [':'] + v, true); }
      ["tag"] + Pieces("" + [':'] + v, [':'], true);
      { SplitCons("", ':', v, true); }
      ["tag"] + Pieces(v, [':'], true);
      { SplitWhole(v, ':', true); }
      ["tag"] + [v];
    }
  }

  /** A token that does not split into exactly two pieces is ignored. */
  lemma OtherShapesIgnored(token: string)
    requires |Pieces(token, ":", true)| != 2
    ensures QueryOf(token) == Ignored
  {
  }

  // ---------------------------------------------------------------------
  // ApplyFilter
  // ---------------------------------------------------------------------

  /** The logs `keep` accepts, in their original order. */
  function Filtered(keep: Log -> bool, logs: seq<Log>): seq<Log>
    decreases |logs|
  {
    if |logs| == 0 then []
    else
      var last := logs[|logs| - 1];
      Filtered(keep, logs[..|logs| - 1]) + (if keep(last) then [last] else [])
  }

  /** The survivors are exactly the elements `keep` accepts. */
  lemma {:induction false} FilteredElements(keep: Log -> bool, logs: seq<Log>)
    ensures forall x :: x in Filtered(keep, logs) <==> x in logs && keep(x)
    ensures |Filtered(keep, logs)| <= |logs|
    decreases |logs|
  {
    if |logs| > 0 {
      var init := logs[..|logs| - 1];
      FilteredElements(keep, init);
      assert logs == init + [logs[|logs| - 1]];
    }
  }

  /** Filtering distributes over concatenation: survivors keep their
      relative order. */
  lemma {:induction false} FilteredAppend(keep: Log -> bool, a: seq<Log>, b: seq<Log>)
    ensures Filtered(keep, a + b) == Filtered(keep, a) + Filtered(keep, b)
    decreases |b|
  {
    if |b| > 0 {
      var b' := b[..|b| - 1];
      assert (a + b)[..|a + b| - 1] == a + b';
      FilteredAppend(keep, a, b');
    } else {
      assert a + b == a;
    }
  }

  /** Filtering twice with the same predicate is filtering once. */
  lemma {:induction false} FilteredIdempotent(keep: Log -> bool, logs: seq<Log>)
    ensures Filtered(keep, Filtered(keep, logs)) == Filtered(keep, logs)
    decreases |logs|
  {
    if |logs| > 0 {
      var init := logs[..|logs| - 1];
      var last := logs[|logs| - 1];
      FilteredIdempotent(keep, init);
      var tail := if keep(last) then [last] else [];
      FilteredAppend(keep, Filtered(keep, init), tail);
      if keep(last) {
        assert Filtered(keep, [last]) == Filtered(keep, []) + [last];
      }
    }
  }

  /** A predicate and its complement split the list between them. */
  lemma {:induction false} FilteredPartition(keep: Log -> bool, drop: Log -> bool, logs: seq<Log>)
    requires forall x :: drop(x) <==> !keep(x)
    ensures multiset(Filtered(keep, logs)) + multiset(Filtered(drop, logs)) == multiset(logs)
    decreases |logs|
  {
    if |logs| > 0 {
      var init := logs[..|logs| - 1];
      FilteredPartition(keep, drop, init);
      assert logs == init + [logs[|logs| - 1]];
    }
  }

  /** ApplyFilter: std::remove_if with the negated predicate, then erase.
      The survivors move to the front in their order; the returned count is
      the new length of the vector. */
  method ApplyFilter(keep: Log -> bool, logs: array<Log>) returns (n: nat)
    modifies logs
    ensures n <= logs.Length
    ensures logs[..n] == Filtered(keep, old(logs[..]))
  {
    n := 0;
    for i := 0 to logs.Length
      invariant n <= i
      invariant logs[..n] == Filtered(keep, old(logs[..])[..i])
      invariant logs[i..] == old(logs[..])[i..]
    {
      var x := logs[i];
      assert old(logs[..])[..i + 1][..i] == old(logs[..])[..i];
      assert x == old(logs[..])[i];
      if keep(x) {
        logs[n] := x;
        n := n + 1;
      }
      assert logs[i + 1..] == old(logs[..])[i + 1..];
    }
    assert old(logs[..])[..logs.Length] == old(logs[..]);
  }

  // ---------------------------------------------------------------------
  // The predicates
  // ---------------------------------------------------------------------

  /** Contains: membership in a std::set. */
  function Contains(haystack: set<string>, needle: string): (r: bool)
    ensures r <==> needle in haystack
  {
    needle in haystack
  }

  /** SubjectFilter: keeps a log whose subject contains the filter's
      subject. */
  function SubjectFilter(f: Filter): (keep: Log -> bool)
    ensures forall log :: keep(log) <==> Occurs(f.subject, log.subject)
  {
    forall log: Log ensures FindFrom(log.subject, f.subject, 0).Some? <==> Occurs(f.subject, log.subject) {
      FindOccurs(log.subject, f.subject);
    }
    (log: Log) => FindFrom(log.subject, f.subject, 0).Some?
  }

  /** With no subject in the filter every log passes SubjectFilter. */
  lemma EmptySubjectKeepsAll(f: Filter, log: Log)
    requires f.subject == ""
    ensures SubjectFilter(f)(log)
  {
    FindOccurs(log.subject, "");
  }

  /** The score TagsFilter computes: one up for every tag of the log the
      filter asks for, one down for every tag it excludes. */
  function Score(f: Filter, tags: set<string>): int {
    |tags * f.tags| - |tags * f.tagsNegative|
  }

  /** Counting one more element of a set. */
  lemma CountStep(seen: set<string>, x: string, s: set<string>)
    requires x !in seen
    ensures |(seen + {x}) * s| == |seen * s| + (if x in s then 1 else 0)
  {
    if x in s {
      assert (seen + {x}) * s == seen * s + {x};
    } else {
      assert (seen + {x}) * s == seen * s;
    }
  }

  /** One more tag moves the score by its own contribution. */
  lemma ScoreStep(f: Filter, seen: set<string>, tag: string)
    requires tag !in seen
    ensures Score(f, seen + {tag}) ==
              Score(f, seen) + (if tag in f.tags then 1 else 0) - (if tag in f.tagsNegative then 1 else 0)
  {
    CountStep(seen, tag, f.tags);
    CountStep(seen, tag, f.tagsNegative);
  }

  /** Taking one more tag out of those still to count. */
  lemma ScoreTake(f: Filter, all: set<string>, remaining: set<string>, tag: string)
    requires remaining <= all && tag in remaining
    ensures remaining - {tag} <= all
    ensures Score(f, all - (remaining - {tag})) ==
              Score(f, all - remaining) + (if tag in f.tags then 1 else 0) - (if tag in f.tagsNegative then 1 else 0)
  {
    assert all - (remaining - {tag}) == (all - remaining) + {tag};
    ScoreStep(f, all - remaining, tag);
  }

  /** The loop of TagsFilter's lambda: the score of the log's tags. */
  method TagsScore(f: Filter, log: Log) returns (score: int)
    ensures score == Score(f, log.tags)
  {
    score := 0;
    var remaining := log.tags;
    while remaining != {}
      invariant remaining <= log.tags
      invariant score == Score(f, log.tags - remaining)
      decreases |remaining|
    {
      var tag :| tag in remaining;
      ScoreTake(f, log.tags, remaining, tag);
      if Contains(f.tagsNegative, tag) {
        score := score - 1;
      }
      if Contains(f.tags, tag) {
        score := score + 1;
      }
      remaining := remaining - {tag};
    }
    assert log.tags - {} == log.tags;
  }

  /** TagsFilter: keeps a log whose score is positive. */
  function TagsFilter(f: Filter): (keep: Log -> bool)
    ensures forall log :: keep(log) <==> |log.tags * f.tags| > |log.tags * f.tagsNegative|
  {
    (log: Log) => Score(f, log.tags) > 0
  }

  /** With no required tag nothing passes TagsFilter. */
  lemma NoRequiredTagKeepsNothing(f: Filter, log: Log)
    requires f.tags == {}
    ensures !TagsFilter(f)(log)
  {
    assert log.tags * f.tags == {};
  }

  /** A log without tags never passes TagsFilter. */
  lemma UntaggedRejected(f: Filter, log: Log)
    requires log.tags == {}
    ensures !TagsFilter(f)(log)
  {
  }

  /** A tag both required and excluded adds nothing to the score. */
  lemma ConflictingTagCancels(f: Filter, tags: set<string>, t: string)
    requires t in f.tags && t in f.tagsNegative && t !in tags
    ensures Score(f, tags + {t}) == Score(f, tags)
  {
    ScoreStep(f, tags, t);
  }

  /** A log carrying a required tag and no excluded one passes. */
  lemma RequiredTagKeeps(f: Filter, log: Log, t: string)
    requires t in log.tags && t in f.tags && log.tags !! f.tagsNegative
    ensures TagsFilter(f)(log)
  {
    assert t in log.tags * f.tags;
    assert log.tags * f.tagsNegative == {};
  }

  /** OnlyValidFilter: keeps a log Validate accepts. */
  function OnlyValidFilter(cal: Calendar): (keep: Log -> bool)
    ensures forall log :: keep(log) <==> log.subject != "" && log.description != "" && cal.isValid(log.createdAt)
  {
    (log: Log) => Validate(cal, log).Ok()
  }

  /** OnlyInvalidFilter: keeps a log Validate rejects. */
  function OnlyInvalidFilter(cal: Calendar): (keep: Log -> bool)
    ensures forall log :: keep(log) <==> !OnlyValidFilter(cal)(log)
  {
    (log: Log) => !Validate(cal, log).Ok()
  }

  /** Applying OnlyValidFilter and OnlyInvalidFilter to the same list
      splits it into two parts that together are the list. */
  lemma ValidityPartitions(cal: Calendar, logs: seq<Log>)
    ensures multiset(Filtered(OnlyValidFilter(cal), logs)) + multiset(Filtered(OnlyInvalidFilter(cal), logs)) ==
              multiset(logs)
  {
    FilteredPartition(OnlyValidFilter(cal), OnlyInvalidFilter(cal), logs);
  }
}
