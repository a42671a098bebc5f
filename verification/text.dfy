/**
 The string primitives the line search is built on: splitting a text into
 lines the way Rust's `str::lines` does, a per-character lowercase map, and
 substring containment.
 */
module Text {

  /* ---------------------------------------------------------------------
     Lowercasing
     --------------------------------------------------------------------- */

  predicate IsUpper(c: char) {
    'A' <= c <= 'Z'
  }

  /** Lowercase of one character: ASCII capitals map to their small letter,
      every other character is left alone. */
  function LowerChar(c: char): (d: char)
    ensures !IsUpper(d)
    ensures IsUpper(c) ==> d as int == c as int + 32
    ensures !IsUpper(c) ==> d == c
  {
    if IsUpper(c) then (c as int + 32) as char else c
  }

  /** Lowercase of a whole string, one character at a time. */
  function Lower(s: string): (r: string)
    ensures |r| == |s|
    ensures forall i :: 0 <= i < |s| ==> r[i] == LowerChar(s[i])
  {
    seq(|s|, i requires 0 <= i < |s| => LowerChar(s[i]))
  }

  predicate HasNoUpper(s: string) {
    forall i :: 0 <= i < |s| ==> !IsUpper(s[i])
  }

  /** Lowercasing leaves no ASCII capital `A`-`Z` behind, is idempotent, and
      fixes exactly the strings that have no ASCII capital. */
  lemma LowerNormalises(s: string)
    ensures HasNoUpper(Lower(s))
    ensures Lower(Lower(s)) == Lower(s)
    ensures Lower(s) == s <==> HasNoUpper(s)
  {
    if Lower(s) == s {
      forall i | 0 <= i < |s|
        ensures !IsUpper(s[i])
      {
        assert s[i] == Lower(s)[i];
      }
    }
  }

  /** Lowercasing commutes with taking a slice. */
  lemma LowerSlice(s: string, i: int, j: int)
    requires 0 <= i <= j <= |s|
    ensures Lower(s)[i..j] == Lower(s[i..j])
  {
  }

  /* ---------------------------------------------------------------------
     Substrings
     --------------------------------------------------------------------- */

  /** `needle` occurs in `hay` starting at position `i`. */
  ghost predicate OccursAt(needle: string, hay: string, i: int) {
    0 <= i && i + |needle| <= |hay| && hay[i..i + |needle|] == needle
  }

  /** `needle` occurs somewhere in `hay` (the reference meaning of Rust's
      `str::contains` with a string pattern). */
  ghost predicate IsSubstring(needle: string, hay: string) {
    exists i :: OccursAt(needle, hay, i)
  }

  /** An occurrence that does not start at position 0 is an occurrence in
      the tail of the haystack, shifted by one. */
  lemma {:induction false} SubstringOfTail(needle: string, hay: string)
    requires 0 < |hay|
    requires !(needle <= hay)
    ensures IsSubstring(needle, hay) <==> IsSubstring(needle, hay[1..])
  {
    if IsSubstring(needle, hay) {
      var i :| OccursAt(needle, hay, i);
      assert hay[1..][i - 1..i - 1 + |needle|] == hay[i..i + |needle|];
      assert OccursAt(needle, hay[1..], i - 1);
    }
    if IsSubstring(needle, hay[1..]) {
      var i :| OccursAt(needle, hay[1..], i);
      assert hay[1..][i..i + |needle|] == hay[i + 1..i + 1 + |needle|];
      assert OccursAt(needle, hay, i + 1);
    }
  }

  /** Substring search: tries every starting position from left to right. */
  function Contains(hay: string, needle: string): (b: bool)
    ensures b <==> IsSubstring(needle, hay)
    decreases |hay|
  {
    if needle <= hay then
      assert OccursAt(needle, hay, 0);
      true
    else if |hay| == 0 then
      false
    else
      SubstringOfTail(needle, hay);
      Contains(hay[1..], needle)
  }

  /** Nothing can occur before the first place its first character does:
      a prefix free of that character can be skipped. */
  lemma SkipToCandidate(needle: string, a: string, b: string)
    requires 0 < |needle| && needle[0] !in a
    ensures IsSubstring(needle, a + b) <==> IsSubstring(needle, b)
  {
    if IsSubstring(needle, a + b) {
      var i :| OccursAt(needle, a + b, i);
      assert (a + b)[i] == needle[0];
      assert (a + b)[i..i + |needle|] == b[i - |a|..i - |a| + |needle|];
      assert OccursAt(needle, b, i - |a|);
    }
    if IsSubstring(needle, b) {
      var i :| OccursAt(needle, b, i);
      assert (a + b)[i + |a|..i + |a| + |needle|] == b[i..i + |needle|];
      assert OccursAt(needle, a + b, i + |a|);
    }
  }

  /** A string holding none of some character of the needle does not
      contain the needle. */
  lemma CharAbsent(needle: string, hay: string, j: int)
    requires 0 <= j < |needle| && needle[j] !in hay
    ensures !IsSubstring(needle, hay)
  {
  }

  /** The empty string occurs in every string. */
  lemma EmptyIsSubstring(hay: string)
    ensures IsSubstring("", hay)
  {
    assert OccursAt("", hay, 0);
  }

  /** Lowercasing both sides one character at a time keeps every occurrence
      where it was, so under the per-character lowercase a case-sensitive
      match is also a case-insensitive one. */
  lemma {:induction false} LowerKeepsOccurrence(needle: string, hay: string, i: int)
    requires OccursAt(needle, hay, i)
    ensures OccursAt(Lower(needle), Lower(hay), i)
  {
    LowerSlice(hay, i, i + |needle|);
  }

  /** Under the per-character lowercase a substring stays a substring once
      both sides are lowercased. */
  lemma LowerKeepsSubstring(needle: string, hay: string)
    requires IsSubstring(needle, hay)
    ensures IsSubstring(Lower(needle), Lower(hay))
  {
    var i :| OccursAt(needle, hay, i);
    LowerKeepsOccurrence(needle, hay, i);
  }

  /* ---------------------------------------------------------------------
     Lines
     --------------------------------------------------------------------- */

  /** Position of the first line feed in `s`, or `|s|` when there is none. */
  function NewlineIndex(s: string): (i: nat)
    ensures i <= |s|
    ensures i < |s| ==> s[i] == '\n'
    ensures forall j :: 0 <= j < i ==> s[j] != '\n'
    decreases |s|
  {
    if |s| == 0 || s[0] == '\n' then 0 else 1 + NewlineIndex(s[1..])
  }

  /** A line feed right after a line-feed-free prefix is the first one. */
  lemma NewlineIndexAfter(a: string, rest: string)
    requires '\n' !in a
    ensures NewlineIndex(a + rest) == |a| <==> (|rest| == 0 || rest[0] == '\n')
  {
    var s := a + rest;
    var i := NewlineIndex(s);
    if 0 < |rest| {
      assert s[|a|] == rest[0];
    }
  }

  /** Drops one carriage return at the end of a piece, the way a "\r\n"
      line ending loses both its characters. */
  function StripCarriageReturn(piece: string): (line: string)
    ensures line <= piece
    ensures |line| >= |piece| - 1
  {
    if 0 < |piece| && piece[|piece| - 1] == '\r' then piece[..|piece| - 1] else piece
  }

  /** The lines of a text, as Rust's `str::lines` yields them: the text is
      cut at every line feed, a carriage return directly in front of a line
      feed goes with it, and a text ending in a line feed has no empty last
      line. A carriage return at the very end of an unterminated last line
      is not part of a line ending and stays. */
  function Lines(s: string): (ls: seq<string>)
    ensures forall k :: 0 <= k < |ls| ==> '\n' !in ls[k]
    decreases |s|
  {
    if |s| == 0 then
      []
    else
      var i := NewlineIndex(s);
      if i == |s| then
        [s]
      else
        var first := StripCarriageReturn(s[..i]);
        assert '\n' !in first by {
          assert forall j :: 0 <= j < |first| ==> first[j] == s[j];
        }
        [first] + Lines(s[i + 1..])
  }

  /** Number of line feeds in a text. */
  function NewlineCount(s: string): nat {
    multiset(s)['\n']
  }

  predicate EndsWithNewline(s: string) {
    0 < |s| && s[|s| - 1] == '\n'
  }

  /** A text has one line per line feed, plus one for a non-empty last line
      that has no line feed after it. */
  lemma {:induction false} LinesCount(s: string)
    ensures |Lines(s)| == NewlineCount(s) + (if 0 < |s| && !EndsWithNewline(s) then 1 else 0)
    decreases |s|
  {
    if |s| == 0 {
    } else {
      var i := NewlineIndex(s);
      if i == |s| {
        assert '\n' !in s by {
          assert forall j :: 0 <= j < |s| ==> s[j] != '\n';
        }
      } else {
        var rest := s[i + 1..];
        SplitAtNewline(s, i);
        assert NewlineCount(s) == NewlineCount(s[..i]) + 1 + NewlineCount(rest);
        LinesCount(rest);
        if |rest| == 0 {
          assert s[|s| - 1] == s[i];
        } else {
          assert s[|s| - 1] == rest[|rest| - 1];
        }
      }
    }
  }

  /** A line that `Lines` can give back unchanged after it has been written
      out with a line feed: it holds no line feed and does not end in a
      carriage return. */
  predicate IsPlainLine(line: string) {
    '\n' !in line && !(0 < |line| && line[|line| - 1] == '\r')
  }

  predicate AllPlainLines(ls: seq<string>) {
    forall k :: 0 <= k < |ls| ==> IsPlainLine(ls[k])
  }

  /** Writes every line out followed by a line feed. */
  function Unlines(ls: seq<string>): string
  {
    if |ls| == 0 then [] else ls[0] + "\n" + Unlines(ls[1..])
  }

  /** Writes every line out followed by a carriage return and a line feed. */
  function UnlinesCrlf(ls: seq<string>): string
  {
    if |ls| == 0 then [] else ls[0] + "\r\n" + UnlinesCrlf(ls[1..])
  }

  /** A non-empty text without a line feed is a single line. */
  lemma LinesOfLine(s: string)
    requires 0 < |s| && '\n' !in s
    ensures Lines(s) == [s]
  {
  }

  /** Splitting the next line off a text that starts with a line-feed-free
      piece and a line feed. */
  lemma LinesCons(piece: string, rest: string)
    requires '\n' !in piece
    ensures Lines(piece + "\n" + rest) == [StripCarriageReturn(piece)] + Lines(rest)
  {
    var s := piece + "\n" + rest;
    assert s == piece + ("\n" + rest);
    NewlineIndexAfter(piece, "\n" + rest);
    var i := NewlineIndex(s);
    assert i == |piece| < |s|;
    assert s[..i] == piece;
    assert s[i + 1..] == rest;
    assert Lines(s) == [StripCarriageReturn(s[..i])] + Lines(s[i + 1..]);
  }

  /** One step of reading back written-out lines: the first line comes back
      unchanged in front of whatever the remainder reads as. */
  lemma LinesOfUnlinesStep(ls: seq<string>, tail: string)
    requires 0 < |ls| && IsPlainLine(ls[0])
    ensures Lines(Unlines(ls) + tail) == [ls[0]] + Lines(Unlines(ls[1..]) + tail)
  {
    var rest := Unlines(ls[1..]) + tail;
    assert Unlines(ls) + tail == ls[0] + "\n" + rest;
    LinesCons(ls[0], rest);
  }

  /** Lines written out with line feeds are read back unchanged, whatever
      follows them. */
  lemma {:induction false} LinesOfUnlines(ls: seq<string>, tail: string)
    requires AllPlainLines(ls)
    ensures Lines(Unlines(ls) + tail) == ls + Lines(tail)
  {
    if |ls| == 0 {
      assert Unlines(ls) + tail == tail;
    } else {
      var first, others := ls[0], ls[1..];
      assert IsPlainLine(first);
      assert AllPlainLines(others) by {
        assert forall k :: 0 <= k < |others| ==> others[k] == ls[k + 1];
      }
      LinesOfUnlines(others, tail);
      LinesOfUnlinesStep(ls, tail);
      AppendAssociates([first], others, Lines(tail));
      assert [first] + others == ls;
    }
  }

  /** One step of reading back lines written out with "\r\n" endings. */
  lemma LinesOfUnlinesCrlfStep(ls: seq<string>, tail: string)
    requires 0 < |ls| && '\n' !in ls[0]
    ensures Lines(UnlinesCrlf(ls) + tail) == [ls[0]] + Lines(UnlinesCrlf(ls[1..]) + tail)
  {
    var rest := UnlinesCrlf(ls[1..]) + tail;
    assert UnlinesCrlf(ls) + tail == (ls[0] + "\r") + "\n" + rest;
    LinesCons(ls[0] + "\r", rest);
    assert StripCarriageReturn(ls[0] + "\r") == ls[0];
  }

  lemma AppendAssociates<T>(a: seq<T>, b: seq<T>, c: seq<T>)
    ensures a + (b + c) == (a + b) + c
  {
  }

  /** Lines written out with "\r\n" endings are read back unchanged,
      whatever follows them: exactly one carriage return is taken off each,
      even from a line that itself ends in one. */
  lemma {:induction false} LinesOfUnlinesCrlf(ls: seq<string>, tail: string)
    requires forall k :: 0 <= k < |ls| ==> '\n' !in ls[k]
    ensures Lines(UnlinesCrlf(ls) + tail) == ls + Lines(tail)
  {
    if |ls| == 0 {
      assert UnlinesCrlf(ls) + tail == tail;
    } else {
      var first, others := ls[0], ls[1..];
      assert forall k :: 0 <= k < |others| ==> others[k] == ls[k + 1];
      LinesOfUnlinesCrlf(others, tail);
      LinesOfUnlinesCrlfStep(ls, tail);
      AppendAssociates([first], others, Lines(tail));
      assert [first] + others == ls;
    }
  }

  /** A text with a line feed is its first piece, that line feed, and the
      rest. */
  lemma SplitAtNewline(s: string, i: int)
    requires i == NewlineIndex(s) < |s|
    ensures s == s[..i] + "\n" + s[i + 1..]
    ensures '\n' !in s[..i]
  {
    SplitAt(s, i);
  }

  lemma SplitAt<T>(s: seq<T>, i: int)
    requires 0 <= i < |s|
    ensures s == s[..i] + [s[i]] + s[i + 1..]
  {
  }

  lemma UnlinesCons(line: string, ls: seq<string>)
    ensures Unlines([line] + ls) == line + "\n" + Unlines(ls)
  {
    assert ([line] + ls)[1..] == ls;
  }

  /** No carriage return of the text stands directly before a line feed. */
  predicate NoCrlf(s: string) {
    forall i :: 0 < i < |s| && s[i] == '\n' ==> s[i - 1] != '\r'
  }

  /** A text in which no carriage return comes right before a line feed is
      its own lines written back out, up to one line feed added after an
      unterminated last line. */
  lemma {:induction false} UnlinesOfLines(s: string)
    requires NoCrlf(s)
    ensures Unlines(Lines(s)) == if 0 < |s| && !EndsWithNewline(s) then s + "\n" else s
    decreases |s|
  {
    if |s| == 0 {
    } else if NewlineIndex(s) == |s| {
      assert Unlines([s]) == s + "\n" + [];
    } else {
      var i := NewlineIndex(s);
      var piece, rest := s[..i], s[i + 1..];
      SplitAtNewline(s, i);
      LinesCons(piece, rest);
      assert NoCrlf(rest) by {
        forall j | 0 < j < |rest| && rest[j] == '\n'
          ensures rest[j - 1] != '\r'
        {
          assert rest[j] == s[i + 1 + j] && rest[j - 1] == s[i + j];
        }
      }
      assert StripCarriageReturn(piece) == piece by {
        if 0 < i {
          assert piece[i - 1] == s[i - 1];
        }
      }
      UnlinesOfLines(rest);
      UnlinesCons(piece, Lines(rest));
      if |rest| == 0 {
        assert s[|s| - 1] == s[i];
      } else if EndsWithNewline(rest) {
        assert s[|s| - 1] == rest[|rest| - 1];
      } else {
        assert s[|s| - 1] == rest[|rest| - 1];
        AppendAssociates(piece + "\n", rest, "\n");
      }
    }
  }

}
