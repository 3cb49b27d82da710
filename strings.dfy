/** The string toolkit of atl/string.cc and atl/string.h: searching,
    splitting, joining, trimming and snippets. */
module Strings {
  import opened Wrappers

  /** The cutset TrimSpace uses: space, tab, carriage return, line feed. */
  const Whitespace: string := " \t\r\n"

  /** Width of `unsigned int`, for the wrap-around in CreateSnippet. */
  const UintModulus: int := 0x1_0000_0000

  // ---------------------------------------------------------------------
  // Searching
  // ---------------------------------------------------------------------

  /** `pat` occurs in `t` at index `k`, compared character by character. */
  predicate MatchAt(t: string, pat: string, k: nat)
    decreases |pat|
  {
    if |pat| == 0 then k <= |t| else k < |t| && t[k] == pat[0] && MatchAt(t, pat[1..], k + 1)
  }

  /** A match is the slice of `t` at `k` being the pattern. */
  lemma {:induction false} MatchAtSlice(t: string, pat: string, k: nat)
    ensures MatchAt(t, pat, k) <==> k + |pat| <= |t| && t[k..k + |pat|] == pat
    decreases |pat|
  {
    if |pat| > 0 {
      MatchAtSlice(t, pat[1..], k + 1);
      if k + |pat| <= |t| {
        var w := t[k..k + |pat|];
        assert w == [t[k]] + t[k + 1..k + |pat|];
        assert pat == [pat[0]] + pat[1..];
        if w == pat {
          assert w[0] == pat[0] && w[1..] == pat[1..];
        }
      }
    }
  }

  /** std::string::find(pat, from): the first occurrence of `pat` at or
      after `from`, or None (npos). */
  function FindFrom(t: string, pat: string, from: nat): (r: Option<nat>)
    ensures r.Some? ==> from <= r.value && r.value + |pat| <= |t|
    decreases |t| - from
  {
    if from + |pat| > |t| then None
    else if MatchAt(t, pat, from) then Some(from)
    else FindFrom(t, pat, from + 1)
  }

  /** What `find` promises: the index found holds an occurrence and none
      lies between `from` and it; when the search fails there is none at
      all from `from` on. */
  lemma {:induction false} FindFromSpec(t: string, pat: string, from: nat)
    ensures FindFrom(t, pat, from).Some? ==> MatchAt(t, pat, FindFrom(t, pat, from).value)
    ensures FindFrom(t, pat, from).Some? ==>
              forall k :: from <= k < FindFrom(t, pat, from).value ==> !MatchAt(t, pat, k)
    ensures FindFrom(t, pat, from).None? ==> forall k :: from <= k ==> !MatchAt(t, pat, k)
    decreases |t| - from
  {
    if from + |pat| <= |t| && !MatchAt(t, pat, from) {
      FindFromSpec(t, pat, from + 1);
    } else if from + |pat| > |t| {
      forall k | from <= k ensures !MatchAt(t, pat, k) {
        MatchAtSlice(t, pat, k);
      }
    }
  }

  /** A one-character pattern matches exactly where that character stands. */
  lemma MatchAtChar(t: string, c: char, k: nat)
    ensures MatchAt(t, [c], k) <==> k < |t| && t[k] == c
  {
    assert [c][1..] == [];
  }

  /** A match in a suffix is a match in the whole text, shifted. */
  lemma {:induction false} MatchAtShift(t: string, pat: string, pos: nat, k: nat)
    requires pos <= |t|
    ensures MatchAt(t, pat, pos + k) == MatchAt(t[pos..], pat, k)
    decreases |pat|
  {
    if |pat| > 0 {
      MatchAtShift(t, pat[1..], pos, k + 1);
    }
  }

  /** Searching from `pos` is searching the suffix that starts at `pos`. */
  lemma FindShift(t: string, pat: string, pos: nat)
    requires pos <= |t|
    ensures FindFrom(t, pat, pos).None? == FindFrom(t[pos..], pat, 0).None?
    ensures FindFrom(t, pat, pos).Some? ==>
              FindFrom(t, pat, pos).value == FindFrom(t[pos..], pat, 0).value + pos
  {
    forall k: nat ensures MatchAt(t, pat, pos + k) == MatchAt(t[pos..], pat, k) {
      MatchAtShift(t, pat, pos, k);
    }
    FindFromSpec(t, pat, pos);
    FindFromSpec(t[pos..], pat, 0);
    var a, b := FindFrom(t, pat, pos), FindFrom(t[pos..], pat, 0);
    if a.Some? {
      assert MatchAt(t[pos..], pat, a.value - pos);
    }
    if b.Some? {
      assert MatchAt(t, pat, b.value + pos);
    }
  }

  /** A character occurs in `t` iff searching for it succeeds. */
  lemma FindCharFound(t: string, c: char)
    ensures FindFrom(t, [c], 0).Some? <==> c in t
  {
    FindFromSpec(t, [c], 0);
    if c in t {
      var k :| 0 <= k < |t| && t[k] == c;
      MatchAtChar(t, c, k);
    }
    if FindFrom(t, [c], 0).Some? {
      MatchAtChar(t, c, FindFrom(t, [c], 0).value);
    }
  }

  /** `pat` stands somewhere in `t` (MatchAtSlice: as a slice). */
  predicate Occurs(pat: string, t: string) {
    exists k: nat :: k <= |t| && MatchAt(t, pat, k)
  }

  /** std::string::find from the start succeeds exactly when the pattern
      occurs; the empty pattern occurs in every text. */
  lemma FindOccurs(t: string, pat: string)
    ensures FindFrom(t, pat, 0).Some? <==> Occurs(pat, t)
    ensures Occurs("", t)
  {
    FindFromSpec(t, pat, 0);
    assert MatchAt(t, "", 0);
  }

  // ---------------------------------------------------------------------
  // Split
  // ---------------------------------------------------------------------

  /** The pieces atl::Split returns: the text between occurrences of the
      delimiter, left to right. The piece after the last delimiter is
      present only when it is non-empty; with `ignoreEmpty` no empty piece
      is returned at all. */
  function Pieces(t: string, d: string, ignoreEmpty: bool): seq<string>
    requires |d| > 0
    decreases |t|
  {
    if |t| == 0 then []
    else match FindFrom(t, d, 0)
      case None => [t]
      case Some(n) =>
        if ignoreEmpty && n == 0 then Pieces(t[n + |d|..], d, ignoreEmpty)
        else [t[..n]] + Pieces(t[n + |d|..], d, ignoreEmpty)
  }

  /** Pieces when the first delimiter is at `k`. */
  lemma PiecesFound(u: string, d: string, ignoreEmpty: bool, k: nat)
    requires |d| > 0 && |u| > 0 && FindFrom(u, d, 0) == Some(k)
    ensures k + |d| <= |u|
    ensures Pieces(u, d, ignoreEmpty) ==
              if ignoreEmpty && k == 0 then Pieces(u[k + |d|..], d, ignoreEmpty)
              else [u[..k]] + Pieces(u[k + |d|..], d, ignoreEmpty)
  {
    var m := FindFrom(u, d, 0);
    assert m == Some(k);
  }

  /** The pieces of the text from `pos` when the next delimiter is at `n`. */
  lemma SuffixFound(text: string, d: string, ignoreEmpty: bool, pos: nat, n: nat)
    requires |d| > 0 && pos < |text| && FindFrom(text, d, pos) == Some(n)
    ensures pos <= n && n + |d| <= |text|
    ensures Pieces(text[pos..], d, ignoreEmpty) ==
              if ignoreEmpty && n == pos then Pieces(text[n + |d|..], d, ignoreEmpty)
              else [text[pos..n]] + Pieces(text[n + |d|..], d, ignoreEmpty)
  {
    var u, k := text[pos..], n - pos;
    calc {
      Pieces(u, d, ignoreEmpty);
      { FindShift(text, d, pos);
        PiecesFound(u, d, ignoreEmpty, k); }
      if ignoreEmpty && k == 0 then Pieces(u[k + |d|..], d, ignoreEmpty)
      else [u[..k]] + Pieces(u[k + |d|..], d, ignoreEmpty);
      { assert u[k + |d|..] == text[n + |d|..];
        assert u[..k] == text[pos..n]; }
      if ignoreEmpty && n == pos then Pieces(text[n + |d|..], d, ignoreEmpty)
      else [text[pos..n]] + Pieces(text[n + |d|..], d, ignoreEmpty);
    }
  }

  /** The text from `pos` is one piece when no delimiter follows. */
  lemma SuffixNotFound(text: string, d: string, ignoreEmpty: bool, pos: nat)
    requires |d| > 0 && pos < |text| && FindFrom(text, d, pos).None?
    ensures Pieces(text[pos..], d, ignoreEmpty) == [text[pos..]]
  {
    FindShift(text, d, pos);
  }

  /** What Split's loop keeps: `res` followed by the pieces of the text
      from `pos` on is all the pieces. */
  predicate SplitInv(text: string, d: string, ignoreEmpty: bool, pos: nat, res: seq<string>)
    requires |d| > 0
  {
    pos <= |text| && res + Pieces(text[pos..], d, ignoreEmpty) == Pieces(text, d, ignoreEmpty)
  }

  /** One turn of Split's loop: a found delimiter either is skipped or ends
      a piece, and the loop's invariant holds again after it. */
  lemma SplitStep(text: string, d: string, ignoreEmpty: bool, pos: nat, n: nat, res: seq<string>)
    requires |d| > 0 && pos < |text| && FindFrom(text, d, pos) == Some(n)
    requires SplitInv(text, d, ignoreEmpty, pos, res)
    ensures pos <= n && n + |d| <= |text|
    ensures ignoreEmpty && n == pos ==> SplitInv(text, d, ignoreEmpty, n + |d|, res)
    ensures !(ignoreEmpty && n == pos) ==> SplitInv(text, d, ignoreEmpty, n + |d|, res + [text[pos..n]])
  {
    SuffixFound(text, d, ignoreEmpty, pos, n);
    var rest := Pieces(text[n + |d|..], d, ignoreEmpty);
    if !(ignoreEmpty && n == pos) {
      assert res + ([text[pos..n]] + rest) == (res + [text[pos..n]]) + rest;
    }
  }

  /** atl::Split. The delimiter must be non-empty: with an empty one
      `find` returns `pos` itself and `pos` never advances. */
  method Split(text: string, delim: string, ignoreEmpty: bool := false) returns (res: seq<string>)
    requires |delim| > 0
    ensures res == Pieces(text, delim, ignoreEmpty)
  {
    res := [];
    var pos := 0;
    var len := |text|;
    assert text[0..] == text;
    while pos < len
      invariant SplitInv(text, delim, ignoreEmpty, pos, res)
      decreases len - pos
    {
      var n := FindFrom(text, delim, pos);
      if n.None? {
        SuffixNotFound(text, delim, ignoreEmpty, pos);
        break;
      }
      SplitStep(text, delim, ignoreEmpty, pos, n.value, res);
      if ignoreEmpty && n.value - pos == 0 {
        pos := pos + |delim|;
        continue;
      }
      res := res + [text[pos..n.value]];
      pos := n.value + |delim|;
    }
    if pos < len {
      res := res + [text[pos..]];
    } else {
      assert text[pos..] == [];
    }
  }

  /** With an empty delimiter the search succeeds at `pos` itself, so the
      loop of Split would never move on. */
  lemma EmptyDelimiterStalls(text: string, pos: nat)
    requires pos < |text|
    ensures FindFrom(text, "", pos) == Some(pos)
  {
  }

  /** Splitting the empty text gives no pieces. */
  lemma SplitEmptyText(d: string, ignoreEmpty: bool)
    requires |d| > 0
    ensures Pieces("", d, ignoreEmpty) == []
  {
  }

  /** With `ignoreEmpty`, no piece is empty. */
  lemma {:induction false} SplitIgnoreEmptyNoEmptyPiece(t: string, d: string)
    requires |d| > 0
    ensures forall p :: p in Pieces(t, d, true) ==> p != ""
    decreases |t|
  {
    if |t| > 0 {
      match FindFrom(t, d, 0)
      case None =>
      case Some(n) =>
        SplitIgnoreEmptyNoEmptyPiece(t[n + |d|..], d);
    }
  }

  /** No piece contains a one-character delimiter. */
  lemma {:induction false} SplitPiecesAvoidDelimiter(t: string, c: char, ignoreEmpty: bool)
    ensures forall p :: p in Pieces(t, [c], ignoreEmpty) ==> c !in p
    decreases |t|
  {
    if |t| > 0 {
      FindFromSpec(t, [c], 0);
      match FindFrom(t, [c], 0)
      case None =>
        forall k | 0 <= k < |t| ensures t[k] != c { MatchAtChar(t, c, k); }
      case Some(n) =>
        forall k | 0 <= k < n ensures t[k] != c { MatchAtChar(t, c, k); }
        SplitPiecesAvoidDelimiter(t[n + 1..], c, ignoreEmpty);
    }
  }

  /** Every character of every piece comes from the text. */
  lemma {:induction false} SplitPiecesChars(t: string, d: string, ignoreEmpty: bool)
    requires |d| > 0
    ensures forall p, ch :: p in Pieces(t, d, ignoreEmpty) && ch in p ==> ch in t
    decreases |t|
  {
    if |t| > 0 {
      match FindFrom(t, d, 0)
      case None =>
      case Some(n) =>
        SplitPiecesChars(t[n + |d|..], d, ignoreEmpty);
        forall ch | ch in t[n + |d|..] ensures ch in t {
          var k :| 0 <= k < |t[n + |d|..]| && t[n + |d|..][k] == ch;
          assert t[n + |d| + k] == ch;
        }
        forall ch | ch in t[..n] ensures ch in t {
          var k :| 0 <= k < n && t[..n][k] == ch;
          assert t[k] == ch;
        }
    }
  }

  /** Without `ignoreEmpty`, a non-empty text has at least one piece. */
  lemma SplitNonEmpty(t: string, d: string)
    requires |d| > 0 && |t| > 0
    ensures |Pieces(t, d, false)| > 0
  {
  }

  /** A text holding the one-character delimiter `c` nowhere is one piece. */
  lemma SplitWhole(x: string, c: char, ignoreEmpty: bool)
    requires x != "" && c !in x
    ensures Pieces(x, [c], ignoreEmpty) == [x]
  {
    FindCharFound(x, c);
  }

  /** Splitting `x + c + y`, where `x` holds no `c`, gives `x` followed by
      the pieces of `y`; with `ignoreEmpty` an empty `x` is dropped. */
  lemma SplitCons(x: string, c: char, y: string, ignoreEmpty: bool)
    requires c !in x
    ensures Pieces(x + [c] + y, [c], ignoreEmpty) ==
              (if ignoreEmpty && x == "" then [] else [x]) + Pieces(y, [c], ignoreEmpty)
  {
    var t := x + [c] + y;
    var n := FindFrom(t, [c], 0);
    FindFromSpec(t, [c], 0);
    MatchAtChar(t, c, |x|);
    assert n.Some?;
    MatchAtChar(t, c, n.value);
    assert t[..|x|] == x;
    assert t[|x| + 1..] == y;
  }

  // ---------------------------------------------------------------------
  // Join
  // ---------------------------------------------------------------------

  /** The text atl::Join builds: the items with the delimiter between
      neighbours and never after the last one. */
  function Joined(items: seq<string>, delim: string): string
  {
    if |items| == 0 then ""
    else if |items| == 1 then items[0]
    else items[0] + delim + Joined(items[1..], delim)
  }

  /** Appending an item to a non-empty list appends the delimiter and it. */
  lemma {:induction false} JoinedSnoc(items: seq<string>, x: string, delim: string)
    requires |items| > 0
    ensures Joined(items + [x], delim) == Joined(items, delim) + delim + x
    decreases |items|
  {
    if |items| == 1 {
      assert (items + [x])[1..] == [x];
    } else {
      assert (items + [x])[1..] == items[1..] + [x];
      JoinedSnoc(items[1..], x, delim);
    }
  }

  /** atl::Join: every item but the last is followed by the delimiter. */
  method Join(items: seq<string>, delim: string) returns (text: string)
    ensures text == Joined(items, delim)
  {
    text := "";
    var length := |items|;
    for i := 0 to length
      invariant i == 0 ==> text == ""
      invariant 0 < i < length ==> text == Joined(items[..i], delim) + delim
      invariant 0 < i == length ==> text == Joined(items[..i], delim)
    {
      if i > 0 {
        assert items[..i + 1] == items[..i] + [items[i]];
        JoinedSnoc(items[..i], items[i], delim);
      } else {
        assert items[..1] == [items[0]];
      }
      if i < length - 1 {
        text := text + items[i] + delim;
        continue;
      }
      text := text + items[i];
    }
    assert items[..length] == items;
  }

  /** atl::JoinStr for the two-argument form the code base uses. */
  function JoinStr(delim: string, a: string, b: string): (r: string)
    ensures r == a + delim + b
  {
    assert [a, b][1..] == [b];
    assert Joined([b], delim) == b;
    Joined([a, b], delim)
  }

  /** The first occurrence of a character that occurs. */
  lemma {:induction false} FirstOccurrence(t: string, c: char) returns (n: nat)
    requires c in t
    ensures n < |t| && t[n] == c && c !in t[..n]
    ensures t == t[..n] + [c] + t[n + 1..]
    decreases |t|
  {
    if t[0] == c {
      n := 0;
    } else {
      var m := FirstOccurrence(t[1..], c);
      n := m + 1;
      assert t[..n] == [t[0]] + t[1..][..m];
    }
    assert t == t[..n] + [c] + t[n + 1..];
  }

  /** Joining the pieces of a split on a one-character delimiter gives the
      text back, except for one trailing delimiter, which is lost. */
  lemma {:induction false} SplitJoinRoundTrip(t: string, c: char)
    ensures Joined(Pieces(t, [c], false), [c]) + (if |t| > 0 && t[|t| - 1] == c then [c] else []) == t
    decreases |t|
  {
    if |t| > 0 {
      if c !in t {
        SplitWhole(t, c, false);
      } else {
        var n := FirstOccurrence(t, c);
        var rest := t[n + 1..];
        SplitCons(t[..n], c, rest, false);
        SplitJoinRoundTrip(rest, c);
        var ps := Pieces(rest, [c], false);
        if |rest| == 0 {
          assert Pieces(t, [c], false) == [t[..n]];
        } else {
          SplitNonEmpty(rest, [c]);
          assert ([t[..n]] + ps)[1..] == ps;
          assert t[|t| - 1] == rest[|rest| - 1];
        }
      }
    }
  }

  /** Each item followed by the delimiter, all concatenated. */
  function Terminated(items: seq<string>, delim: string): string
  {
    if |items| == 0 then "" else items[0] + delim + Terminated(items[1..], delim)
  }

  /** Terminating two lists is terminating their concatenation. */
  lemma {:induction false} TerminatedAppend(a: seq<string>, b: seq<string>, delim: string)
    ensures Terminated(a + b, delim) == Terminated(a, delim) + Terminated(b, delim)
    decreases |a|
  {
    if |a| == 0 {
      assert a + b == b;
    } else {
      assert (a + b)[1..] == a[1..] + b;
      TerminatedAppend(a[1..], b, delim);
    }
  }

  /** Splitting text that starts with terminated items free of the
      delimiter gives those items back, then the pieces of the rest. */
  lemma {:induction false} SplitAfterTerminated(items: seq<string>, c: char, u: string)
    requires forall k :: 0 <= k < |items| ==> c !in items[k]
    ensures Pieces(Terminated(items, [c]) + u, [c], false) == items + Pieces(u, [c], false)
    decreases |items|
  {
    if |items| == 0 {
      assert Terminated(items, [c]) + u == u;
    } else {
      var rest := Terminated(items[1..], [c]) + u;
      calc {
        Pieces(Terminated(items, [c]) + u, [c], false);
        { assert Terminated(items, [c]) + u == items[0] + [c] + rest; }
        Pieces(items[0] + [c] + rest, [c], false);
        { SplitCons(items[0], c, rest, false); }
        [items[0]] + Pieces(rest, [c], false);
        { SplitAfterTerminated(items[1..], c, u); }
        [items[0]] + (items[1..] + Pieces(u, [c], false));
        { assert items == [items[0]] + items[1..]; }
        items + Pieces(u, [c], false);
      }
    }
  }

  /** Re-terminating the pieces of an empty or delimiter-terminated text
      gives the text back. */
  lemma {:induction false} SplitTerminatedRoundTrip(t: string, c: char)
    requires |t| == 0 || t[|t| - 1] == c
    ensures Terminated(Pieces(t, [c], false), [c]) == t
    decreases |t|
  {
    if |t| > 0 {
      var n := FirstOccurrence(t, c);
      var rest := t[n + 1..];
      SplitCons(t[..n], c, rest, false);
      assert rest == [] || rest[|rest| - 1] == t[|t| - 1];
      SplitTerminatedRoundTrip(rest, c);
      assert ([t[..n]] + Pieces(rest, [c], false))[1..] == Pieces(rest, [c], false);
    }
  }

  // ---------------------------------------------------------------------
  // Trimming
  // ---------------------------------------------------------------------

  /** Every character of `s` is in the cutset. */
  predicate AllIn(s: string, cutset: string) {
    forall i :: 0 <= i < |s| ==> s[i] in cutset
  }

  /** std::string::find_first_not_of(cutset, from). */
  function FirstNotOf(t: string, cutset: string, from: nat): (r: Option<nat>)
    ensures r.Some? ==> from <= r.value < |t| && t[r.value] !in cutset
    ensures r.Some? ==> forall i :: from <= i < r.value ==> t[i] in cutset
    ensures r.None? ==> forall i :: from <= i < |t| ==> t[i] in cutset
    decreases |t| - from
  {
    if from >= |t| then None
    else if t[from] !in cutset then Some(from)
    else FirstNotOf(t, cutset, from + 1)
  }

  /** std::string::find_last_not_of(cutset) restricted to indices below `upto`. */
  function LastNotOf(t: string, cutset: string, upto: nat): (r: Option<nat>)
    requires upto <= |t|
    ensures r.Some? ==> r.value < upto && t[r.value] !in cutset
    ensures r.Some? ==> forall i :: r.value < i < upto ==> t[i] in cutset
    ensures r.None? ==> forall i :: 0 <= i < upto ==> t[i] in cutset
    decreases upto
  {
    if upto == 0 then None
    else if t[upto - 1] !in cutset then Some(upto - 1)
    else LastNotOf(t, cutset, upto - 1)
  }

  /** atl::TrimLeft: an empty or all-cutset text comes back unchanged;
      otherwise the suffix from the first character outside the cutset. */
  function TrimLeft(text: string, cutset: string): (r: string)
    ensures AllIn(text, cutset) ==> r == text
    ensures !AllIn(text, cutset) ==> 0 < |r| <= |text| && r == text[|text| - |r|..]
    ensures !AllIn(text, cutset) ==> r[0] !in cutset && AllIn(text[..|text| - |r|], cutset)
  {
    if |text| == 0 then text
    else match FirstNotOf(text, cutset, 0)
      case None => text
      case Some(n) => text[n..]
  }

  /** atl::TrimRight: an empty or all-cutset text comes back unchanged;
      otherwise the prefix up to the last character outside the cutset. */
  function TrimRight(text: string, cutset: string): (r: string)
    ensures AllIn(text, cutset) ==> r == text
    ensures !AllIn(text, cutset) ==> 0 < |r| <= |text| && r == text[..|r|]
    ensures !AllIn(text, cutset) ==> r[|r| - 1] !in cutset && AllIn(text[|r|..], cutset)
  {
    if |text| == 0 then text
    else match LastNotOf(text, cutset, |text|)
      case None => text
      case Some(n) => text[..n + 1]
  }

  /** atl::Trim: both ends. An all-cutset text comes back unchanged;
      otherwise the result is a slice of the text, begins and ends outside
      the cutset, and only cutset characters were removed around it. */
  function Trim(text: string, cutset: string): (r: string)
    ensures AllIn(text, cutset) ==> r == text
    ensures !AllIn(text, cutset) ==> |r| > 0 && r[0] !in cutset && r[|r| - 1] !in cutset
    ensures !AllIn(text, cutset) ==>
              exists i :: 0 <= i <= |text| - |r| && text[i..i + |r|] == r &&
                          AllIn(text[..i], cutset) && AllIn(text[i + |r|..], cutset)
  {
    if |text| == 0 then text
    else
      var left := TrimLeft(text, cutset);
      var r := TrimRight(left, cutset);
      TrimComposes(text, left, r, cutset);
      r
  }

  /** The facts Trim's contract needs about its two halves. */
  lemma TrimComposes(text: string, left: string, r: string, cutset: string)
    requires left == TrimLeft(text, cutset) && r == TrimRight(left, cutset)
    ensures AllIn(text, cutset) ==> r == text
    ensures !AllIn(text, cutset) ==> |r| > 0 && r[0] !in cutset && r[|r| - 1] !in cutset
    ensures !AllIn(text, cutset) ==>
              var i := |text| - |left|;
              0 <= i <= |text| - |r| && text[i..i + |r|] == r &&
              AllIn(text[..i], cutset) && AllIn(text[i + |r|..], cutset)
  {
    if !AllIn(text, cutset) {
      var i := |text| - |left|;
      assert !AllIn(left, cutset) by { assert left[0] !in cutset; }
      assert text[i..i + |r|] == left[..|r|];
      assert text[i + |r|..] == left[|r|..];
    }
  }

  /** atl::TrimSpace: Trim with the cutset space, tab, CR and LF. A text
      of white space only comes back unchanged; any other text loses its
      leading and trailing white space and nothing else. */
  function TrimSpace(text: string): (r: string)
    ensures AllIn(text, Whitespace) ==> r == text
    ensures !AllIn(text, Whitespace) ==> |r| > 0 && r[0] !in Whitespace && r[|r| - 1] !in Whitespace
    ensures !AllIn(text, Whitespace) ==>
              exists i :: 0 <= i <= |text| - |r| && text[i..i + |r|] == r &&
                          AllIn(text[..i], Whitespace) && AllIn(text[i + |r|..], Whitespace)
  {
    var left := TrimLeft(text, Whitespace);
    TrimComposes(text, left, TrimRight(left, Whitespace), Whitespace);
    Trim(text, Whitespace)
  }

  /** Trimming removes exactly cutset padding around a core that begins and
      ends outside the cutset. */
  lemma TrimAround(pre: string, t: string, post: string, cutset: string)
    requires AllIn(pre, cutset) && AllIn(post, cutset)
    requires |t| > 0 && t[0] !in cutset && t[|t| - 1] !in cutset
    ensures Trim(pre + t + post, cutset) == t
  {
    var text := pre + t + post;
    assert text[|pre|] == t[0];
    var left := TrimLeft(text, cutset);
    var k := |text| - |left|;
    assert text[k] == left[0];
    assert k == |pre|;
    assert left == t + post;
    assert left[|t| - 1] == t[|t| - 1];
    var r := TrimRight(left, cutset);
    assert |r| == |t|;
    assert r == left[..|t|] == t;
  }

  /** A non-empty text whose ends are outside the cutset is trimmed already. */
  predicate Trimmed(t: string) {
    |t| > 0 && t[0] !in Whitespace && t[|t| - 1] !in Whitespace
  }

  /** TrimSpace leaves a trimmed text alone. */
  lemma TrimSpaceOfTrimmed(t: string)
    requires Trimmed(t)
    ensures TrimSpace(t) == t
  {
    TrimAround("", t, "", Whitespace);
    assert "" + t + "" == t;
  }

  /** TrimSpace is idempotent. */
  lemma TrimSpaceIdempotent(s: string)
    ensures TrimSpace(TrimSpace(s)) == TrimSpace(s)
  {
    if !AllIn(s, Whitespace) {
      TrimSpaceOfTrimmed(TrimSpace(s));
    }
  }

  // ---------------------------------------------------------------------
  // Snippets
  // ---------------------------------------------------------------------

  /** atl::CreateSnippet. The length arithmetic is unsigned: when
      `numChars` is below the filler's length the cut point wraps around
      modulo 2^32. The source asserts the difference is non-zero. */
  function CreateSnippet(str: string, numChars: nat, filler: string := "..."): (r: string)
    requires numChars < UintModulus
    requires numChars != |filler|
    ensures numChars > |filler| && |str| <= numChars - |filler| ==> r == str
    ensures numChars > |filler| && |str| > numChars - |filler| ==>
              r == str[..numChars - |filler|] + filler
    ensures numChars > |filler| ==> |r| <= numChars
    ensures numChars < |filler| && |str| + |filler| <= UintModulus ==> r == str
  {
    var cutAfter := (numChars - |filler|) % UintModulus;
    if |str| > cutAfter then str[..cutAfter] + filler else str
  }
}
