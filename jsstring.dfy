/** The JavaScript string built-ins that the page scripts rely on, over strings
    as sequences of characters: String.prototype.indexOf, includes, replace with
    a string pattern (first occurrence only), split on one character, and
    Array.prototype.join for the inverse of split. */
module JsString {

  /** `p` occurs in `s` starting at index `i`. */
  predicate OccursAt(s: string, p: string, i: int)
  {
    0 <= i && i + |p| <= |s| && s[i..i + |p|] == p
  }

  lemma OccursAtTail(s: string, p: string, j: int)
    requires |s| > 0 && 1 <= j
    ensures OccursAt(s, p, j) <==> OccursAt(s[1..], p, j - 1)
  {
    if j + |p| <= |s| {
      assert s[1..][j - 1..j - 1 + |p|] == s[j..j + |p|];
    }
  }

  /** s.indexOf(p): the first index at which `p` occurs in `s`, or -1 when it
      occurs nowhere. The empty pattern occurs at 0. */
  function IndexOf(s: string, p: string): (r: int)
    ensures -1 <= r
    ensures 0 <= r ==> OccursAt(s, p, r)
    ensures forall j :: 0 <= j && (r < 0 || j < r) ==> !OccursAt(s, p, j)
    decreases |s|
  {
    if |s| < |p| then -1
    else if s[..|p|] == p then 0
    else
      assert |s| > 0 && !OccursAt(s, p, 0);
      var k := IndexOf(s[1..], p);
      assert forall j :: 1 <= j ==> (OccursAt(s, p, j) <==> OccursAt(s[1..], p, j - 1)) by {
        forall j | 1 <= j {
          OccursAtTail(s, p, j);
        }
      }
      if k < 0 then -1 else k + 1
  }

  /** A pattern whose first character does not appear in `s` is not in `s`. */
  lemma LetterAbsentNoOccurrence(s: string, p: string)
    requires |p| > 0 && p[0] !in s
    ensures !Includes(s, p)
  {
  }

  /** s.includes(p) */
  function Includes(s: string, p: string): (b: bool)
    ensures b <==> exists i :: OccursAt(s, p, i)
  {
    IndexOf(s, p) >= 0
  }

  /** s.replace(p, rep) with a string pattern: only the first occurrence of `p`
      is replaced; without an occurrence the string is returned as it is. The
      replacement is inserted literally, which is what replace does for a
      replacement string holding no '$' (the only kind the scripts pass). */
  function ReplaceFirst(s: string, p: string, rep: string): (r: string)
    requires '$' !in rep
    ensures !Includes(s, p) ==> r == s
    ensures Includes(s, p) ==> |r| == |s| - |p| + |rep|
  {
    var i := IndexOf(s, p);
    if i < 0 then s else s[..i] + rep + s[i + |p|..]
  }

  /** When the pattern's first character is absent from `w`, the first
      occurrence of the pattern in `w + p` is the appended one. */
  lemma ReplaceFirstOfSuffix(w: string, p: string, rep: string)
    requires |p| > 0 && p[0] !in w && '$' !in rep
    ensures ReplaceFirst(w + p, p, rep) == w + rep
  {
    var s := w + p;
    assert OccursAt(s, p, |w|);
    forall j | 0 <= j < |w|
      ensures !OccursAt(s, p, j)
    {
      assert s[j] == w[j];
    }
    assert IndexOf(s, p) == |w|;
    assert s[..|w|] == w;
  }

  /** The replacement stands where the first occurrence was, and putting the
      pattern back there gives the original string; everything before that
      point held no occurrence. */
  lemma ReplaceFirstUndone(s: string, p: string, rep: string)
    requires Includes(s, p) && '$' !in rep
    ensures var i := IndexOf(s, p);
            var r := ReplaceFirst(s, p, rep);
            0 <= i <= |r| - |rep| && r[i..i + |rep|] == rep
            && r[..i] + p + r[i + |rep|..] == s
            && forall j :: 0 <= j < i ==> !OccursAt(s, p, j)
  {
    var i := IndexOf(s, p);
    var r := ReplaceFirst(s, p, rep);
    assert r == s[..i] + rep + s[i + |p|..];
    assert r[..i] == s[..i];
    assert r[i + |rep|..] == s[i + |p|..];
    assert s[i..i + |p|] == p;
    assert s == s[..i] + s[i..i + |p|] + s[i + |p|..];
  }

  /** s.split(sep) for a one-character separator: the maximal runs between
      separators, in order; an empty string gives one empty piece. */
  function Split(s: string, sep: char): (parts: seq<string>)
    ensures |parts| >= 1
    ensures forall k :: 0 <= k < |parts| ==> sep !in parts[k]
  {
    if s == [] then [[]]
    else
      var rest := Split(s[1..], sep);
      if s[0] == sep then [[]] + rest
      else [[s[0]] + rest[0]] + rest[1..]
  }

  /** parts.join(sep) */
  function Join(parts: seq<string>, sep: char): string
  {
    if parts == [] then []
    else if |parts| == 1 then parts[0]
    else parts[0] + [sep] + Join(parts[1..], sep)
  }

  /** Joining the pieces of a split with the same separator restores the string. */
  lemma {:induction false} JoinSplit(s: string, sep: char)
    ensures Join(Split(s, sep), sep) == s
  {
    if s != [] {
      var rest := Split(s[1..], sep);
      JoinSplit(s[1..], sep);
      if s[0] == sep {
        assert Split(s, sep) == [[]] + rest;
        assert ([[]] + rest)[1..] == rest;
      } else {
        var parts := Split(s, sep);
        assert parts == [[s[0]] + rest[0]] + rest[1..];
        if |rest| == 1 {
          assert parts == [[s[0]] + rest[0]];
        } else {
          assert parts[1..] == rest[1..];
          assert Join(rest, sep) == rest[0] + [sep] + Join(rest[1..], sep);
        }
      }
    }
  }

  lemma {:induction false} SplitUnseparatedPrefix(p: string, t: string, sep: char)
    requires sep !in p
    ensures Split(p + t, sep) == [p + Split(t, sep)[0]] + Split(t, sep)[1..]
  {
    if p != [] {
      SplitUnseparatedPrefix(p[1..], t, sep);
      assert (p + t)[1..] == p[1..] + t;
      assert [p[0]] + (p[1..] + Split(t, sep)[0]) == p + Split(t, sep)[0];
    } else {
      assert p + t == t;
      assert p + Split(t, sep)[0] == Split(t, sep)[0];
      assert Split(t, sep) == [Split(t, sep)[0]] + Split(t, sep)[1..];
    }
  }

  /** A separator after a piece without one starts a new piece. */
  lemma SplitAtSeparator(a: string, t: string, sep: char)
    requires sep !in a
    ensures Split(a + [sep] + t, sep) == [a] + Split(t, sep)
  {
    SplitUnseparatedPrefix(a, [sep] + t, sep);
    assert a + [sep] + t == a + ([sep] + t);
    assert ([sep] + t)[1..] == t;
    assert a + [] == a;
  }

  /** Splitting pieces joined with a separator none of them contains gives
      the pieces back: split and join are inverse on such sequences. */
  lemma {:induction false} SplitJoin(parts: seq<string>, sep: char)
    requires |parts| >= 1
    requires forall k :: 0 <= k < |parts| ==> sep !in parts[k]
    ensures Split(Join(parts, sep), sep) == parts
  {
    if |parts| == 1 {
      SplitUnseparatedPrefix(parts[0], [], sep);
      assert parts[0] + [] == parts[0];
    } else {
      var tail := Join(parts[1..], sep);
      SplitJoin(parts[1..], sep);
      SplitUnseparatedPrefix(parts[0], [sep] + tail, sep);
      assert parts[0] + [sep] + tail == parts[0] + ([sep] + tail);
      assert ([sep] + tail)[1..] == tail;
      assert Split([sep] + tail, sep) == [[]] + parts[1..];
      assert Join(parts, sep) == parts[0] + ([sep] + tail);
      assert parts[0] + [] == parts[0];
      assert [parts[0]] + parts[1..] == parts;
    }
  }

  /** The last piece of a split is the text after the last separator: a suffix
      of `s` holding no separator, which is either all of `s` or preceded by a
      separator. There is exactly one piece iff `s` holds no separator. */
  lemma {:induction false} SplitLast(s: string, sep: char)
    ensures var parts := Split(s, sep);
            var last := parts[|parts| - 1];
            (|parts| == 1 <==> sep !in s)
            && (|parts| == 1 ==> parts[0] == s)
            && |last| <= |s| && s[|s| - |last|..] == last
            && (|last| == |s| || s[|s| - |last| - 1] == sep)
  {
    if s != [] {
      var s' := s[1..];
      SplitLast(s', sep);
      var rest := Split(s', sep);
      var last' := rest[|rest| - 1];
      assert s[|s| - |last'|..] == s'[|s'| - |last'|..];
      if |last'| < |s'| {
        assert s[|s| - |last'| - 1] == s'[|s'| - |last'| - 1];
      }
      if s[0] == sep {
        assert sep in s;
      } else {
        assert sep in s <==> sep in s';
        var parts := Split(s, sep);
        if |rest| == 1 {
          assert parts == [[s[0]] + s'];
          assert [s[0]] + s' == s;
        } else {
          assert parts[|parts| - 1] == last';
          assert |last'| == |s'| ==> last' == s';
        }
      }
    }
  }
}
