/**
 * The preferences dialog's mapping editor: the stored list of mapping lines
 * is shown joined by newlines, and every edit of the text is normalised back
 * into a list by splitting at newlines, trimming each line and dropping the
 * lines left empty.
 */
module Prefs {
  import opened Text

  /**
   * The characters JavaScript's String.prototype.trim removes: the
   * ECMAScript WhiteSpace code points (tab, vertical tab, form feed, space,
   * no-break space, the byte order mark and the other space separators)
   * and the LineTerminator code points.
   */
  predicate IsTrimmable(c: char) {
    c == '\t' || c == '\U{000B}' || c == '\U{000C}' || c == ' ' || c == '\U{00A0}' || c == '\U{FEFF}'
    || c == '\U{1680}' || ('\U{2000}' <= c <= '\U{200A}') || c == '\U{202F}' || c == '\U{205F}' || c == '\U{3000}'
    || c == '\n' || c == '\r' || c == '\U{2028}' || c == '\U{2029}'
  }

  /** Neither end of `t` is trimmable (an empty string is trimmed). */
  predicate IsTrimmed(t: string) {
    t == [] || (!IsTrimmable(t[0]) && !IsTrimmable(t[|t| - 1]))
  }

  /** `s` with its leading trimmable characters removed. */
  function TrimStart(s: string): (r: string)
    ensures |r| <= |s| && r == s[|s| - |r|..]
    ensures forall k :: 0 <= k < |s| - |r| ==> IsTrimmable(s[k])
    ensures r == [] || !IsTrimmable(r[0])
  {
    if s != [] && IsTrimmable(s[0]) then TrimStart(s[1..]) else s
  }

  /** `s` with its trailing trimmable characters removed. */
  function TrimEnd(s: string): (r: string)
    ensures |r| <= |s| && r == s[..|r|]
    ensures forall k :: |r| <= k < |s| ==> IsTrimmable(s[k])
    ensures r == [] || !IsTrimmable(r[|r| - 1])
  {
    if s != [] && IsTrimmable(s[|s| - 1]) then TrimEnd(s[..|s| - 1]) else s
  }

  /**
   * `r` is what is left of `s` once a trimmable prefix and a trimmable
   * suffix are cut off: `r` is the infix of `s` starting at `i`.
   */
  ghost predicate StripsTo(s: string, i: int, r: string) {
    0 <= i <= i + |r| <= |s| && r == s[i..i + |r|]
    && (forall k :: 0 <= k < i ==> IsTrimmable(s[k]))
    && (forall k :: i + |r| <= k < |s| ==> IsTrimmable(s[k]))
  }

  /** String.prototype.trim: both ends stripped of trimmable characters. */
  function Trim(s: string): (r: string)
    ensures IsTrimmed(r)
  {
    var t := TrimStart(s);
    var r := TrimEnd(t);
    TrimmedCompose(t, r);
    r
  }

  /** A prefix of a string with a non-trimmable head, cut before a non-trimmable character, is trimmed. */
  lemma TrimmedCompose(t: string, r: string)
    requires t == [] || !IsTrimmable(t[0])
    requires |r| <= |t| && r == t[..|r|]
    requires r == [] || !IsTrimmable(r[|r| - 1])
    ensures IsTrimmed(r)
  {
    if r != [] {
      assert r[0] == t[0];
    }
  }

  /** What trimming removes is a trimmable prefix and a trimmable suffix, and nothing else. */
  lemma TrimStrips(s: string)
    ensures StripsTo(s, |s| - |TrimStart(s)|, Trim(s))
  {
    var t := TrimStart(s);
    var r := TrimEnd(t);
    assert Trim(s) == r;
    assert |t| <= |s| && t == s[|s| - |t|..];
    assert |r| <= |t| && r == t[..|r|];
    StripsCompose(s, t, r);
  }

  /** Cutting a trimmable prefix and then a trimmable suffix strips `s` to an infix. */
  lemma StripsCompose(s: string, t: string, r: string)
    requires |t| <= |s| && t == s[|s| - |t|..] && forall k :: 0 <= k < |s| - |t| ==> IsTrimmable(s[k])
    requires |r| <= |t| && r == t[..|r|] && forall k :: |r| <= k < |t| ==> IsTrimmable(t[k])
    ensures StripsTo(s, |s| - |t|, r)
  {
    var i := |s| - |t|;
    SliceOfSuffix(s, i, |r|);
    forall k | i + |r| <= k < |s|
      ensures IsTrimmable(s[k])
    {
      assert s[k] == t[k - i];
    }
  }

  /** The first `n` characters of the suffix from `i` are the infix from `i` to `i + n`. */
  lemma SliceOfSuffix(s: string, i: nat, n: nat)
    requires i + n <= |s|
    ensures s[i..][..n] == s[i..i + n]
  {
  }

  /** Trimming leaves a string alone exactly when it is already trimmed. */
  lemma TrimFixesTrimmed(t: string)
    ensures Trim(t) == t <==> IsTrimmed(t)
  {
    if IsTrimmed(t) && t != [] {
      assert TrimStart(t) == t;
      assert TrimEnd(t) == t;
    }
  }

  /** A line trims to nothing exactly when it is blank. */
  lemma TrimBlank(s: string)
    ensures Trim(s) == [] <==> forall k :: 0 <= k < |s| ==> IsTrimmable(s[k])
  {
  }

  /** String.prototype.split('\n'): the pieces between newlines, always at least one. */
  function Split(s: string): (r: seq<string>)
    ensures |r| == Count(s, '\n') + 1
    ensures forall k :: 0 <= k < |r| ==> '\n' !in r[k]
  {
    if s == [] then [""]
    else
      var rest := Split(s[1..]);
      if s[0] == '\n' then [""] + rest
      else [[s[0]] + rest[0]] + rest[1..]
  }

  /** Array.prototype.join('\n'): the lines with a newline between neighbours. */
  function Join(lines: seq<string>): (s: string)
  {
    if lines == [] then ""
    else if |lines| == 1 then lines[0]
    else lines[0] + "\n" + Join(lines[1..])
  }

  /** Joining puts exactly one newline between neighbouring lines and adds none at the ends. */
  lemma {:induction false} JoinNewlines(lines: seq<string>)
    requires lines != []
    requires forall k :: 0 <= k < |lines| ==> '\n' !in lines[k]
    ensures Count(Join(lines), '\n') == |lines| - 1
  {
    CountAbsent(lines[0], '\n');
    if |lines| > 1 {
      JoinNewlines(lines[1..]);
      CountAppend(lines[0], "\n", '\n');
      CountAppend(lines[0] + "\n", Join(lines[1..]), '\n');
      CountSingleton('\n', '\n');
    }
  }

  /** Joining the pieces of a split gives back the text. */
  lemma {:induction false} JoinInvertsSplit(s: string)
    ensures Join(Split(s)) == s
  {
    if s != [] {
      var rest := Split(s[1..]);
      JoinInvertsSplit(s[1..]);
      if s[0] == '\n' {
        assert Split(s)[1..] == rest;
        assert s == "\n" + s[1..];
      } else {
        var r := Split(s);
        assert r[0] == [s[0]] + rest[0];
        if |rest| == 1 {
          assert s == [s[0]] + s[1..];
        } else {
          assert r[1..] == rest[1..];
          assert Join(rest) == rest[0] + "\n" + Join(rest[1..]);
          assert s == [s[0]] + s[1..];
        }
      }
    }
  }

  /** A newline-free text followed by more text: it extends the first piece. */
  lemma {:induction false} SplitPrefix(x: string, t: string)
    requires '\n' !in x
    ensures Split(x + t) == [x + Split(t)[0]] + Split(t)[1..]
  {
    if x != [] {
      assert (x + t)[0] == x[0];
      assert (x + t)[1..] == x[1..] + t;
      assert '\n' !in x[1..] by {
        assert forall c :: c in x[1..] ==> c in x;
      }
      SplitPrefix(x[1..], t);
      assert [x[0]] + (x[1..] + Split(t)[0]) == x + Split(t)[0];
    } else {
      assert x + t == t;
      assert x + Split(t)[0] == Split(t)[0];
      assert Split(t) == [Split(t)[0]] + Split(t)[1..];
    }
  }

  /** Splitting the join of non-empty list of newline-free lines gives back the list. */
  lemma {:induction false} SplitInvertsJoin(lines: seq<string>)
    requires lines != []
    requires forall k :: 0 <= k < |lines| ==> '\n' !in lines[k]
    ensures Split(Join(lines)) == lines
  {
    if |lines| == 1 {
      SplitPrefix(lines[0], "");
      assert lines[0] + "" == lines[0];
    } else {
      var tail := Join(lines[1..]);
      SplitInvertsJoin(lines[1..]);
      SplitPrefix(lines[0], "\n" + tail);
      assert ("\n" + tail)[1..] == tail;
      assert Split("\n" + tail) == [""] + lines[1..];
      assert lines[0] + "\n" + tail == lines[0] + ("\n" + tail);
      assert lines[0] + "" == lines[0];
      assert lines == [lines[0]] + lines[1..];
    }
  }

  /** Every line trimmed, in place. */
  function TrimAll(lines: seq<string>): (r: seq<string>)
    ensures |r| == |lines|
    ensures forall k :: 0 <= k < |r| ==> r[k] == Trim(lines[k])
  {
    seq(|lines|, k requires 0 <= k < |lines| => Trim(lines[k]))
  }

  /** Array.prototype.filter with truthiness: the non-empty lines, in order. */
  function DropEmpty(lines: seq<string>): (r: seq<string>)
    ensures |r| <= |lines|
    ensures forall k :: 0 <= k < |r| ==> r[k] != [] && r[k] in lines
  {
    if lines == [] then []
    else (if lines[0] == [] then [] else [lines[0]]) + DropEmpty(lines[1..])
  }

  /** Position `idx[k]` of `lines` holds `r[k]`, for every `k`. */
  ghost predicate PicksFrom(idx: seq<int>, lines: seq<string>, r: seq<string>) {
    |idx| == |r| && forall k :: 0 <= k < |idx| ==> 0 <= idx[k] < |lines| && r[k] == lines[idx[k]]
  }

  /** The positions are strictly increasing. */
  ghost predicate Increasing(idx: seq<int>) {
    forall k, l :: 0 <= k < l < |idx| ==> idx[k] < idx[l]
  }

  /** Every position of a non-empty line is listed. */
  ghost predicate CoversNonEmpty(idx: seq<int>, lines: seq<string>) {
    forall j :: 0 <= j < |lines| && lines[j] != [] ==> j in idx
  }

  /**
   * `idx` lists, in increasing order, exactly the positions of `lines` that
   * hold a non-empty line, and `r` holds the lines at those positions.
   */
  ghost predicate SelectsNonEmpty(idx: seq<int>, lines: seq<string>, r: seq<string>) {
    PicksFrom(idx, lines, r) && Increasing(idx) && CoversNonEmpty(idx, lines)
  }

  /** Each position moved one line further down. */
  function Shift(idx: seq<int>): (r: seq<int>)
    ensures |r| == |idx| && forall k :: 0 <= k < |r| ==> r[k] == idx[k] + 1
  {
    seq(|idx|, k requires 0 <= k < |idx| => idx[k] + 1)
  }

  lemma ShiftPicks(lines: seq<string>, idx: seq<int>, r: seq<string>)
    requires lines != [] && PicksFrom(idx, lines[1..], r)
    ensures PicksFrom(Shift(idx), lines, r)
    ensures forall k :: 0 <= k < |idx| ==> 1 <= Shift(idx)[k]
  {
    var s := Shift(idx);
    forall k | 0 <= k < |s|
      ensures 1 <= s[k] < |lines| && r[k] == lines[s[k]]
    {
      assert lines[1..][idx[k]] == lines[s[k]];
    }
  }

  lemma ShiftIncreasing(idx: seq<int>)
    requires Increasing(idx)
    ensures Increasing(Shift(idx))
  {
  }

  lemma ShiftCovers(lines: seq<string>, idx: seq<int>)
    requires lines != [] && CoversNonEmpty(idx, lines[1..])
    ensures forall j :: 1 <= j < |lines| && lines[j] != [] ==> j in Shift(idx)
  {
    var s := Shift(idx);
    forall j | 1 <= j < |lines| && lines[j] != []
      ensures j in s
    {
      assert lines[1..][j - 1] == lines[j];
      var k :| 0 <= k < |idx| && idx[k] == j - 1;
      assert s[k] == j;
    }
  }

  /** An empty first line is skipped: the shifted selection from the rest selects from the whole list. */
  lemma SelectsSkip(lines: seq<string>, idx: seq<int>, r: seq<string>)
    requires lines != [] && lines[0] == [] && SelectsNonEmpty(idx, lines[1..], r)
    ensures SelectsNonEmpty(Shift(idx), lines, r)
  {
    ShiftPicks(lines, idx, r);
    ShiftIncreasing(idx);
    ShiftCovers(lines, idx);
  }

  /** A non-empty first line is kept in front of the shifted selection from the rest. */
  lemma SelectsKeep(lines: seq<string>, idx: seq<int>, r: seq<string>)
    requires lines != [] && lines[0] != [] && SelectsNonEmpty(idx, lines[1..], r)
    ensures SelectsNonEmpty([0] + Shift(idx), lines, [lines[0]] + r)
  {
    var s := Shift(idx);
    ShiftPicks(lines, idx, r);
    ShiftIncreasing(idx);
    ShiftCovers(lines, idx);
    PrependPicks(lines, s, r);
    PrependIncreasing(s);
    forall j | 0 <= j < |lines| && lines[j] != []
      ensures j in [0] + s
    {
      if j > 0 {
        assert j in s;
      }
    }
  }

  lemma PrependPicks(lines: seq<string>, s: seq<int>, r: seq<string>)
    requires lines != [] && PicksFrom(s, lines, r)
    ensures PicksFrom([0] + s, lines, [lines[0]] + r)
  {
    var all, out := [0] + s, [lines[0]] + r;
    forall k | 1 <= k < |all|
      ensures 0 <= all[k] < |lines| && out[k] == lines[all[k]]
    {
      assert all[k] == s[k - 1] && out[k] == r[k - 1];
    }
  }

  lemma PrependIncreasing(s: seq<int>)
    requires Increasing(s) && forall k :: 0 <= k < |s| ==> 1 <= s[k]
    ensures Increasing([0] + s)
  {
    var all := [0] + s;
    forall k, l | 0 <= k < l < |all|
      ensures all[k] < all[l]
    {
      assert all[l] == s[l - 1];
      if k > 0 {
        assert all[k] == s[k - 1];
      }
    }
  }

  /** Dropping the empty lines keeps every other line, in its original order. */
  lemma {:induction false} DropEmptyKeepsOrder(lines: seq<string>) returns (idx: seq<int>)
    ensures SelectsNonEmpty(idx, lines, DropEmpty(lines))
  {
    if lines == [] {
      idx := [];
    } else {
      var tail := DropEmpty(lines[1..]);
      var rest := DropEmptyKeepsOrder(lines[1..]);
      if lines[0] == [] {
        SelectsSkip(lines, rest, tail);
        idx := Shift(rest);
        assert DropEmpty(lines) == tail;
      } else {
        SelectsKeep(lines, rest, tail);
        idx := [0] + Shift(rest);
        assert DropEmpty(lines) == [lines[0]] + tail;
      }
    }
  }

  /** Dropping empty lines from lines that are all non-empty changes nothing. */
  lemma {:induction false} DropEmptyKeepsNonEmpty(lines: seq<string>)
    requires forall k :: 0 <= k < |lines| ==> lines[k] != []
    ensures DropEmpty(lines) == lines
  {
    if lines != [] {
      DropEmptyKeepsNonEmpty(lines[1..]);
      assert lines == [lines[0]] + lines[1..];
    }
  }

  /** The mapping list stored for an edited text: split at newlines, trim each line, drop the empty ones. */
  function ParseMapping(text: string): (r: seq<string>)
    ensures |r| <= Count(text, '\n') + 1
    ensures forall k :: 0 <= k < |r| ==> r[k] != [] && IsTrimmed(r[k]) && '\n' !in r[k]
  {
    var trimmed := TrimAll(Split(text));
    TrimmedPiecesClean(text);
    DropEmpty(trimmed)
  }

  /** Every trimmed piece of a text is trimmed and newline-free. */
  lemma TrimmedPiecesClean(text: string)
    ensures forall l :: l in TrimAll(Split(text)) ==> IsTrimmed(l) && '\n' !in l
  {
    var pieces := Split(text);
    var trimmed := TrimAll(pieces);
    forall l | l in trimmed
      ensures IsTrimmed(l) && '\n' !in l
    {
      var j :| 0 <= j < |trimmed| && trimmed[j] == l;
      NoNewlineAfterTrim(pieces[j]);
    }
  }

  /** Trimming cannot introduce a newline. */
  lemma NoNewlineAfterTrim(s: string)
    requires '\n' !in s
    ensures '\n' !in Trim(s)
  {
    var i := |s| - |TrimStart(s)|;
    var r := Trim(s);
    TrimStrips(s);
    assert forall c :: c in s[i..i + |r|] ==> c in s;
  }

  /** The parsed lines are the trimmed, non-blank pieces of the text, in text order. */
  lemma ParseKeepsLineOrder(text: string) returns (idx: seq<int>)
    ensures SelectsNonEmpty(idx, TrimAll(Split(text)), ParseMapping(text))
  {
    idx := DropEmptyKeepsOrder(TrimAll(Split(text)));
  }

  /** Showing a normalised list and parsing the shown text gives back the list. */
  lemma ParseRoundTrip(lines: seq<string>)
    requires forall k :: 0 <= k < |lines| ==> lines[k] != [] && IsTrimmed(lines[k]) && '\n' !in lines[k]
    ensures ParseMapping(Join(lines)) == lines
  {
    if lines == [] {
      assert Split("") == [""];
      assert Trim("") == "";
      assert TrimAll([""]) == [""];
    } else {
      SplitInvertsJoin(lines);
      forall k | 0 <= k < |lines|
        ensures Trim(lines[k]) == lines[k]
      {
        TrimFixesTrimmed(lines[k]);
      }
      assert TrimAll(lines) == lines;
      DropEmptyKeepsNonEmpty(lines);
    }
  }

  /** Parsing the shown form of a parse result changes nothing: normalising twice is normalising once. */
  lemma ParseIdempotent(text: string)
    ensures ParseMapping(Join(ParseMapping(text))) == ParseMapping(text)
  {
    ParseRoundTrip(ParseMapping(text));
  }
}
