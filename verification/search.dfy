/**
 The line search (`search`): keeps, in input order, every line of the text
 whose normalised form contains the normalised query, where normalising
 means lowercasing when the configuration ignores case and nothing
 otherwise. The lines kept are the original ones, never their lowercase
 forms.
 */
module LineSearch {
  import opened Text
  import opened Configuration

  /** Whether a line is kept for a query. */
  ghost predicate Matches(line: string, query: string, ignoreCase: bool) {
    if ignoreCase then IsSubstring(Lower(query), Lower(line)) else IsSubstring(query, line)
  }

  /** What the search keeps of a single line: the line itself when it
      matches, nothing otherwise. */
  ghost function Keep(line: string, query: string, ignoreCase: bool): seq<string> {
    if Matches(line, query, ignoreCase) then [line] else []
  }

  /** The reference result: the matching lines of `ls`, in order. */
  ghost function Select(ls: seq<string>, query: string, ignoreCase: bool): seq<string>
    decreases |ls|
  {
    if |ls| == 0 then
      []
    else
      var last := ls[|ls| - 1];
      Select(ls[..|ls| - 1], query, ignoreCase) + Keep(last, query, ignoreCase)
  }

  /** `r` picks the lines of `ls` at the strictly increasing positions
      `idx`, and those positions are exactly the ones whose line matches. */
  ghost predicate IsSelection(ls: seq<string>, query: string, ignoreCase: bool, r: seq<string>, idx: seq<int>) {
    && |idx| == |r|
    && (forall k :: 0 <= k < |idx| ==> 0 <= idx[k] < |ls| && r[k] == ls[idx[k]])
    && (forall k, m :: 0 <= k < m < |idx| ==> idx[k] < idx[m])
    && (forall i :: 0 <= i < |ls| ==> (Matches(ls[i], query, ignoreCase) <==> i in idx))
  }

  /** The search as the source performs it: the query is normalised once,
      then every line is normalised and tested, and the original line is
      kept when it contains the query. */
  method Search(contents: string, config: Config) returns (result: seq<string>)
    ensures result == Select(Lines(contents), config.query, config.ignoreCase)
    ensures forall k :: 0 <= k < |result| ==> result[k] in Lines(contents)
    ensures forall k :: 0 <= k < |result| ==> Matches(result[k], config.query, config.ignoreCase)
    ensures forall line :: line in Lines(contents) ==>
      (line in result <==> Matches(line, config.query, config.ignoreCase))
    ensures !config.ignoreCase ==> forall line :: line in Lines(contents) ==>
      (line in result <==> Contains(line, config.query))
  {
    var query := if config.ignoreCase then Lower(config.query) else config.query;
    var lines := Lines(contents);
    result := [];
    var i := 0;
    while i < |lines|
      invariant 0 <= i <= |lines|
      invariant result == Select(lines[..i], config.query, config.ignoreCase)
    {
      var line := lines[i];
      var normalised := if config.ignoreCase then Lower(line) else line;
      SelectExtend(lines, i, config.query, config.ignoreCase);
      if Contains(normalised, query) {
        result := result + [line];
      }
      i := i + 1;
    }
    assert lines[..i] == lines;
    SelectSound(lines, config.query, config.ignoreCase);
    SelectMembership(lines, config.query, config.ignoreCase);
    if !config.ignoreCase {
      forall line | line in lines
        ensures line in result <==> Contains(line, config.query)
      {
        CaseSensitiveIsPlainSubstring(line, config.query);
      }
    }
  }

  /** Extending the searched prefix by one line adds that line exactly
      when it matches. */
  lemma SelectExtend(ls: seq<string>, i: int, query: string, ignoreCase: bool)
    requires 0 <= i < |ls|
    ensures Select(ls[..i + 1], query, ignoreCase)
         == Select(ls[..i], query, ignoreCase) + Keep(ls[i], query, ignoreCase)
  {
    assert ls[..i + 1][..i] == ls[..i];
  }

  /** Every selected line is a matching line of the input. */
  lemma {:induction false} SelectSound(ls: seq<string>, query: string, ignoreCase: bool)
    ensures forall k :: 0 <= k < |Select(ls, query, ignoreCase)| ==>
      Select(ls, query, ignoreCase)[k] in ls && Matches(Select(ls, query, ignoreCase)[k], query, ignoreCase)
    decreases |ls|
  {
    if |ls| > 0 {
      var init := ls[..|ls| - 1];
      SelectSound(init, query, ignoreCase);
      var r := Select(ls, query, ignoreCase);
      forall k | 0 <= k < |r|
        ensures r[k] in ls && Matches(r[k], query, ignoreCase)
      {
        if k < |Select(init, query, ignoreCase)| {
          assert r[k] == Select(init, query, ignoreCase)[k];
          assert r[k] in init;
        }
      }
    }
  }

  /** The reference result is a selection: it is made of the matching lines
      and only of them, each at its own position, in input order. */
  lemma {:induction false} SelectIsSelection(ls: seq<string>, query: string, ignoreCase: bool)
    returns (idx: seq<int>)
    ensures IsSelection(ls, query, ignoreCase, Select(ls, query, ignoreCase), idx)
    decreases |ls|
  {
    if |ls| == 0 {
      idx := [];
    } else {
      var n := |ls| - 1;
      var init := ls[..n];
      var prev := SelectIsSelection(init, query, ignoreCase);
      assert forall i :: 0 <= i < n ==> ls[i] == init[i];
      if Matches(ls[n], query, ignoreCase) {
        idx := prev + [n];
        assert n in idx;
      } else {
        idx := prev;
      }
    }
  }

  /** A selection whose last input line matches ends with that line; the
      rest of it is a selection of the other lines. */
  lemma SelectionDropMatching(ls: seq<string>, query: string, ignoreCase: bool, r: seq<string>, idx: seq<int>)
    requires IsSelection(ls, query, ignoreCase, r, idx)
    requires 0 < |ls| && Matches(ls[|ls| - 1], query, ignoreCase)
    ensures 0 < |r| && r[|r| - 1] == ls[|ls| - 1]
    ensures IsSelection(ls[..|ls| - 1], query, ignoreCase, r[..|r| - 1], idx[..|idx| - 1])
  {
    var n := |ls| - 1;
    var init := ls[..n];
    assert n in idx;
    var last := |idx| - 1;
    assert idx[last] == n;
    var r', idx' := r[..last], idx[..last];
    forall i | 0 <= i < n
      ensures Matches(init[i], query, ignoreCase) <==> i in idx'
    {
      assert init[i] == ls[i];
      if i in idx {
        var m :| 0 <= m < |idx| && idx[m] == i;
        assert idx'[m] == i;
      }
    }
    forall k | 0 <= k < |idx'|
      ensures 0 <= idx'[k] < n && r'[k] == init[idx'[k]]
    {
      assert idx[k] < idx[last];
    }
  }

  /** A selection whose last input line does not match is a selection of
      the other lines. */
  lemma SelectionDropNonMatching(ls: seq<string>, query: string, ignoreCase: bool, r: seq<string>, idx: seq<int>)
    requires IsSelection(ls, query, ignoreCase, r, idx)
    requires 0 < |ls| && !Matches(ls[|ls| - 1], query, ignoreCase)
    ensures IsSelection(ls[..|ls| - 1], query, ignoreCase, r, idx)
  {
    var n := |ls| - 1;
    forall k | 0 <= k < |idx|
      ensures 0 <= idx[k] < n
    {
      assert idx[k] in idx;
    }
    assert forall i :: 0 <= i < n ==> ls[..n][i] == ls[i];
  }

  /** A selection of the matching lines can only be the reference result:
      together with `SelectIsSelection` this pins the search result down as
      the one order-preserving choice of exactly the matching lines. */
  lemma {:induction false} SelectionIsSelect(ls: seq<string>, query: string, ignoreCase: bool, r: seq<string>, idx: seq<int>)
    requires IsSelection(ls, query, ignoreCase, r, idx)
    ensures r == Select(ls, query, ignoreCase)
    decreases |ls|
  {
    if |ls| > 0 {
      var n := |ls| - 1;
      if Matches(ls[n], query, ignoreCase) {
        SelectionDropMatching(ls, query, ignoreCase, r, idx);
        SelectionIsSelect(ls[..n], query, ignoreCase, r[..|r| - 1], idx[..|idx| - 1]);
        assert r == r[..|r| - 1] + [ls[n]];
      } else {
        SelectionDropNonMatching(ls, query, ignoreCase, r, idx);
        SelectionIsSelect(ls[..n], query, ignoreCase, r, idx);
      }
    }
  }

  /** The search result, characterised without reference to how it is
      computed: a sequence is the result exactly when it picks, in input
      order, the matching lines and no others. */
  lemma SelectCharacterised(ls: seq<string>, query: string, ignoreCase: bool, r: seq<string>)
    ensures r == Select(ls, query, ignoreCase) <==> exists idx :: IsSelection(ls, query, ignoreCase, r, idx)
  {
    if r == Select(ls, query, ignoreCase) {
      var idx := SelectIsSelection(ls, query, ignoreCase);
    }
    if idx :| IsSelection(ls, query, ignoreCase, r, idx) {
      SelectionIsSelect(ls, query, ignoreCase, r, idx);
    }
  }

  /** A line of the input is in the result exactly when it matches. */
  lemma SelectMembership(ls: seq<string>, query: string, ignoreCase: bool)
    ensures forall line :: line in ls ==> (line in Select(ls, query, ignoreCase) <==> Matches(line, query, ignoreCase))
  {
    var r := Select(ls, query, ignoreCase);
    var idx := SelectIsSelection(ls, query, ignoreCase);
    forall line | line in ls
      ensures line in r <==> Matches(line, query, ignoreCase)
    {
      var i :| 0 <= i < |ls| && ls[i] == line;
      if Matches(line, query, ignoreCase) {
        var k :| 0 <= k < |idx| && idx[k] == i;
        assert r[k] == line;
      } else {
        SelectSound(ls, query, ignoreCase);
      }
    }
  }

  /** An empty query keeps every line. */
  lemma {:induction false} EmptyQueryKeepsAll(ls: seq<string>, ignoreCase: bool)
    ensures Select(ls, "", ignoreCase) == ls
    decreases |ls|
  {
    if |ls| > 0 {
      var n := |ls| - 1;
      EmptyQueryKeepsAll(ls[..n], ignoreCase);
      EmptyIsSubstring(ls[n]);
      EmptyIsSubstring(Lower(ls[n]));
      assert Lower("") == "";
      assert ls[..n] + [ls[n]] == ls;
    }
  }

  /** Case-sensitive search keeps a line exactly when the query, as given,
      is a substring of the line as given. */
  lemma CaseSensitiveIsPlainSubstring(line: string, query: string)
    ensures Matches(line, query, false) <==> Contains(line, query)
  {
  }

  /** Under the per-character lowercase, ignoring case can only keep more
      lines: every line the case-sensitive search keeps, the case-ignoring
      search keeps as often. */
  lemma {:induction false} IgnoringCaseKeepsMore(ls: seq<string>, query: string)
    ensures multiset(Select(ls, query, false)) <= multiset(Select(ls, query, true))
    decreases |ls|
  {
    if |ls| > 0 {
      var n := |ls| - 1;
      IgnoringCaseKeepsMore(ls[..n], query);
      if Matches(ls[n], query, false) {
        LowerKeepsSubstring(query, ls[n]);
      }
    }
  }

  /** When case is ignored only the lowercase form of the query matters. */
  lemma {:induction false} IgnoringCaseQueryCaseIrrelevant(ls: seq<string>, query1: string, query2: string)
    requires Lower(query1) == Lower(query2)
    ensures Select(ls, query1, true) == Select(ls, query2, true)
    decreases |ls|
  {
    if |ls| > 0 {
      IgnoringCaseQueryCaseIrrelevant(ls[..|ls| - 1], query1, query2);
    }
  }

  /** Searching a text made of two parts searches each part on its own:
      whether a line is kept depends on that line alone. */
  lemma {:induction false} SelectAppend(a: seq<string>, b: seq<string>, query: string, ignoreCase: bool)
    ensures Select(a + b, query, ignoreCase) == Select(a, query, ignoreCase) + Select(b, query, ignoreCase)
    decreases |b|
  {
    if |b| == 0 {
      assert a + b == a;
    } else {
      var n := |b| - 1;
      SelectAppend(a, b[..n], query, ignoreCase);
      assert (a + b)[..|a + b| - 1] == a + b[..n];
      assert (a + b)[|a + b| - 1] == b[n];
    }
  }
}
