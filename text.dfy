/**
 * The two string operations the processor applies to its container-URI property:
 * splitting on runs of the regular-expression class `\s` (Kotlin's `split(Regex)`,
 * which keeps a leading and a trailing empty piece) and trimming with Kotlin's
 * `String.trim()`, which removes every character `Char.isWhitespace()` accepts.
 */
module Text {

  /**
   * The characters of the default (non-Unicode) `\s` class of Java regular expressions:
   * the space and five ASCII controls, so never a no-break or other Unicode space.
   */
  predicate IsRegexSpace(c: char): (b: bool)
    ensures b ==> c <= ' '
  {
    c == ' ' || c == '\t' || c == '\n' || c == '\U{000B}' || c == '\U{000C}' || c == '\r'
  }

  /**
   * Kotlin's `Char.isWhitespace()` on the JVM: the controls 0x09-0x0D and 0x1C-0x1F and
   * every space, line or paragraph separator of Unicode, the no-break spaces included
   * (`Char.isWhitespace()` adds `Character.isSpaceChar` to `Character.isWhitespace`),
   * but not the next-line control, the Mongolian vowel separator or the zero-width spaces.
   */
  predicate IsWhitespace(c: char): (b: bool)
    ensures c == '\U{00A0}' || c == '\U{2007}' || c == '\U{202F}' ==> b
    ensures b ==> c != '\U{0085}' && c != '\U{180E}' && c != '\U{200B}' && c != '\U{FEFF}'
  {
    ('\U{0009}' <= c <= '\U{000D}') || ('\U{001C}' <= c <= '\U{0020}')
    || c == '\U{00A0}' || c == '\U{1680}' || ('\U{2000}' <= c <= '\U{200A}')
    || c == '\U{2028}' || c == '\U{2029}' || c == '\U{202F}' || c == '\U{205F}' || c == '\U{3000}'
  }

  /** Every `\s` character is one that `trim()` removes too. */
  lemma RegexSpaceIsWhitespace(c: char)
    ensures IsRegexSpace(c) ==> IsWhitespace(c)
  {
  }

  predicate NoRegexSpace(s: string) {
    forall k :: 0 <= k < |s| ==> !IsRegexSpace(s[k])
  }

  /** Drops the run of `\s` characters at the front of `s`. */
  function SkipSpaceRun(s: string): (r: string)
    ensures |r| <= |s| && r == s[|s| - |r|..]
    ensures forall k :: 0 <= k < |s| - |r| ==> IsRegexSpace(s[k])
    ensures r == [] || !IsRegexSpace(r[0])
  {
    if s != [] && IsRegexSpace(s[0]) then SkipSpaceRun(s[1..]) else s
  }

  /**
   * `s.split(Regex("\\s+"))`: the pieces between maximal runs of `\s`, an empty piece
   * before a leading run and after a trailing one, and `[""]` for the empty string.
   */
  function Split(s: string): (r: seq<string>)
    ensures |r| >= 1
    ensures forall i :: 0 <= i < |r| ==> NoRegexSpace(r[i])
    ensures r[0] == [] <==> s == [] || IsRegexSpace(s[0])
    ensures forall i :: 0 < i < |r| - 1 ==> r[i] != []
    decreases |s|
  {
    if s == [] then [""]
    else if IsRegexSpace(s[0]) then [""] + Split(SkipSpaceRun(s))
    else
      var t := Split(s[1..]);
      [[s[0]] + t[0]] + t[1..]
  }

  /** The pieces joined back together with one space between neighbours. */
  function JoinWithSpace(ts: seq<string>): string
    requires |ts| >= 1
  {
    if |ts| == 1 then ts[0] else ts[0] + " " + JoinWithSpace(ts[1..])
  }

  /** Pieces that splitting can give back unchanged: no `\s` inside, none empty but the two outer ones. */
  predicate SplitShaped(ts: seq<string>) {
    |ts| >= 1
    && (forall i :: 0 <= i < |ts| ==> NoRegexSpace(ts[i]))
    && (forall i :: 0 < i < |ts| - 1 ==> ts[i] != [])
  }

  /** A string whose every `\s` run is one plain space. */
  predicate SingleSpaced(s: string) {
    forall k :: 0 <= k < |s| && IsRegexSpace(s[k]) ==> s[k] == ' ' && (k + 1 == |s| || !IsRegexSpace(s[k + 1]))
  }

  lemma {:induction false} SplitAfterWord(w: string, s: string)
    requires NoRegexSpace(w)
    ensures Split(w + s) == [w + Split(s)[0]] + Split(s)[1..]
    decreases |w|
  {
    if w == [] {
      var t := Split(s);
      assert w + s == s && w + t[0] == t[0];
      assert t == [t[0]] + t[1..];
    } else {
      assert (w + s)[0] == w[0] && (w + s)[1..] == w[1..] + s && w + s != [];
      SplitAfterWord(w[1..], s);
      var t := Split(w[1..] + s);
      assert t == [w[1..] + Split(s)[0]] + Split(s)[1..];
      assert t[0] == w[1..] + Split(s)[0] && t[1..] == Split(s)[1..];
      assert Split(w + s) == [[w[0]] + t[0]] + t[1..];
      assert [w[0]] + (w[1..] + Split(s)[0]) == w + Split(s)[0];
    }
  }

  /** Splitting undoes joining for every shape splitting can produce. */
  lemma {:induction false} SplitJoin(ts: seq<string>)
    requires SplitShaped(ts)
    ensures Split(JoinWithSpace(ts)) == ts
  {
    if |ts| == 1 {
      SplitAfterWord(ts[0], "");
      assert ts[0] + "" == ts[0] && ts == [ts[0]];
    } else {
      var rest := ts[1..];
      assert SplitShaped(rest);
      var j := JoinWithSpace(rest);
      SplitJoin(rest);
      assert j == [] || !IsRegexSpace(j[0]) by {
        if j != [] && |rest| > 1 {
          assert rest[0] != [];
          assert j[0] == rest[0][0];
        }
      }
      assert SkipSpaceRun(" " + j) == j by {
        assert (" " + j)[1..] == j;
      }
      assert Split(" " + j) == [""] + rest;
      assert JoinWithSpace(ts) == ts[0] + (" " + j);
      SplitAfterWord(ts[0], " " + j);
      assert Split(JoinWithSpace(ts)) == [ts[0] + ""] + rest;
      assert ts[0] + "" == ts[0];
      assert ts == [ts[0]] + rest;
    }
  }

  lemma {:induction false} JoinAfterChar(c: char, t: seq<string>)
    requires |t| >= 1
    ensures JoinWithSpace([[c] + t[0]] + t[1..]) == [c] + JoinWithSpace(t)
  {
    var u := [[c] + t[0]] + t[1..];
    if |t| > 1 {
      assert u[1..] == t[1..];
    }
  }

  lemma SingleSpacedTail(s: string)
    requires SingleSpaced(s) && s != []
    ensures SingleSpaced(s[1..])
  {
    forall k | 0 <= k < |s[1..]| && IsRegexSpace(s[1..][k])
      ensures s[1..][k] == ' ' && (k + 1 == |s[1..]| || !IsRegexSpace(s[1..][k + 1]))
    {
      assert s[1..][k] == s[k + 1];
    }
  }

  /** Joining undoes splitting on strings whose separators are single spaces. */
  lemma {:induction false} JoinSplit(s: string)
    requires SingleSpaced(s)
    ensures JoinWithSpace(Split(s)) == s
    decreases |s|
  {
    if s == [] {
    } else {
      var tail := s[1..];
      SingleSpacedTail(s);
      JoinSplit(tail);
      if IsRegexSpace(s[0]) {
        assert tail == [] || !IsRegexSpace(tail[0]);
        assert SkipSpaceRun(tail) == tail;
        assert SkipSpaceRun(s) == tail;
        assert Split(s) == [""] + Split(tail);
        assert JoinWithSpace(Split(s)) == "" + " " + JoinWithSpace(Split(tail));
        assert s == " " + tail;
      } else {
        JoinAfterChar(s[0], Split(tail));
        assert s == [s[0]] + tail;
      }
    }
  }

  /** A string without `\s` is a single piece. */
  lemma NoSpaceIsOnePiece(s: string)
    requires NoRegexSpace(s)
    ensures Split(s) == [s]
  {
    SplitJoin([s]);
  }

  /** The text with every maximal run of `\s` replaced by one plain space. */
  function Collapse(s: string): (r: string)
    ensures |r| <= |s|
    ensures r == [] <==> s == []
    ensures s != [] ==> (if IsRegexSpace(s[0]) then r[0] == ' ' else r[0] == s[0])
    decreases |s|
  {
    if s == [] then []
    else if IsRegexSpace(s[0]) then " " + Collapse(SkipSpaceRun(s))
    else [s[0]] + Collapse(s[1..])
  }

  /** In the collapsed text every `\s` run is a single plain space. */
  lemma {:induction false} CollapseSingleSpaced(s: string)
    ensures SingleSpaced(Collapse(s))
    decreases |s|
  {
    if s != [] {
      var t := if IsRegexSpace(s[0]) then SkipSpaceRun(s) else s[1..];
      var rest := Collapse(t);
      var r := Collapse(s);
      CollapseSingleSpaced(t);
      assert r == [if IsRegexSpace(s[0]) then ' ' else s[0]] + rest;
      assert IsRegexSpace(s[0]) ==> rest == [] || !IsRegexSpace(rest[0]);
      forall k | 0 <= k < |r| && IsRegexSpace(r[k])
        ensures r[k] == ' ' && (k + 1 == |r| || !IsRegexSpace(r[k + 1]))
      {
        if k > 0 {
          assert r[k] == rest[k - 1];
          assert k + 1 < |r| ==> r[k + 1] == rest[k];
        }
      }
    }
  }

  /**
   * Splitting depends only on where the `\s` runs are, not on their length or their
   * characters; so the pieces of any text are those of its collapsed form, whose
   * single-space joining gives the collapsed form back.
   */
  lemma {:induction false} SplitCollapse(s: string)
    ensures Split(s) == Split(Collapse(s))
    ensures JoinWithSpace(Split(s)) == Collapse(s)
    decreases |s|
  {
    if s == [] {
    } else if IsRegexSpace(s[0]) {
      var t := SkipSpaceRun(s);
      var c := Collapse(t);
      SplitCollapse(t);
      assert Collapse(s) == " " + c;
      assert (" " + c)[1..] == c;
      assert SkipSpaceRun(" " + c) == c;
      assert Split(" " + c) == [""] + Split(c);
    } else {
      var c := Collapse(s[1..]);
      SplitCollapse(s[1..]);
      assert Collapse(s) == [s[0]] + c;
      assert ([s[0]] + c)[1..] == c;
      assert Split([s[0]] + c) == [[s[0]] + Split(c)[0]] + Split(c)[1..];
    }
    CollapseSingleSpaced(s);
    JoinSplit(Collapse(s));
  }

  /** Drops leading whitespace. */
  function TrimStart(s: string): (r: string)
    ensures |r| <= |s| && r == s[|s| - |r|..]
    ensures forall k :: 0 <= k < |s| - |r| ==> IsWhitespace(s[k])
    ensures r == [] || !IsWhitespace(r[0])
  {
    if s != [] && IsWhitespace(s[0]) then TrimStart(s[1..]) else s
  }

  /** Drops trailing whitespace. */
  function TrimEnd(s: string): (r: string)
    ensures |r| <= |s| && r == s[..|r|]
    ensures forall k :: |r| <= k < |s| ==> IsWhitespace(s[k])
    ensures r == [] || !IsWhitespace(r[|r| - 1])
  {
    if s != [] && IsWhitespace(s[|s| - 1]) then TrimEnd(s[..|s| - 1]) else s
  }

  /** `String.trim()`: whitespace dropped at both ends. */
  function Trim(s: string): (r: string)
    ensures |r| <= |s|
    ensures r == [] || (!IsWhitespace(r[0]) && !IsWhitespace(r[|r| - 1]))
  {
    TrimEnd(TrimStart(s))
  }

  /** What trimming leaves is the infix of `s` between a whitespace prefix and a whitespace suffix. */
  lemma TrimIsInfix(s: string)
    ensures exists i :: (0 <= i <= |s| - |Trim(s)| && Trim(s) == s[i..][..|Trim(s)|]
      && (forall k :: 0 <= k < i ==> IsWhitespace(s[k]))
      && (forall k :: i + |Trim(s)| <= k < |s| ==> IsWhitespace(s[k])))
  {
    var head := TrimStart(s);
    var r := Trim(s);
    var i := |s| - |head|;
    assert r == s[i..][..|r|];
    assert forall k :: i + |r| <= k < |s| ==> s[k] == head[k - i];
  }

  /** Trimming twice is trimming once. */
  lemma TrimIdempotent(s: string)
    ensures Trim(Trim(s)) == Trim(s)
  {
    var r := Trim(s);
    assert TrimStart(r) == r;
    assert TrimEnd(r) == r;
  }
}
