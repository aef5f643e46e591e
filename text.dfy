/** The handful of Go `strings` operations the client relies on, over
    strings as sequences of characters: splitting on a one-character
    separator, joining, trimming a cut character at both ends, prefix and
    suffix tests, and lower-casing. */
module Text {

  /** Index of the first `c` in `s`, or `|s|` when there is none
      (Go's strings.Index, with "not found" mapped to the length). */
  function IndexOf(s: string, c: char): (i: nat)
    ensures i <= |s|
    ensures i < |s| ==> s[i] == c
    ensures forall k :: 0 <= k < i ==> s[k] != c
  {
    if s == [] then 0
    else if s[0] == c then 0
    else 1 + IndexOf(s[1..], c)
  }

  /** A text of 7-bit ASCII characters only. */
  predicate IsAscii(s: string)
  {
    forall k :: 0 <= k < |s| ==> s[k] as int < 0x80
  }

  /** The bytes UTF-8 spends on one character. */
  function RuneLen(ch: char): (n: nat)
    ensures 1 <= n <= 4 && (n == 1 <==> ch as int < 0x80)
  {
    if ch as int < 0x80 then 1
    else if ch as int < 0x800 then 2
    else if ch as int < 0x1_0000 then 3
    else 4
  }

  /** Go's len(s) on a string: the length of its UTF-8 encoding in bytes.
      It is never below the number of characters, and equals it exactly
      when every character is ASCII. */
  function Utf8Len(s: string): (n: nat)
    ensures n >= |s|
    ensures n == |s| <==> IsAscii(s)
  {
    if s == [] then 0
    else
      var n := RuneLen(s[0]) + Utf8Len(s[1..]);
      assert IsAscii(s) <==> s[0] as int < 0x80 && IsAscii(s[1..]) by {
        if s[0] as int < 0x80 && IsAscii(s[1..]) {
          forall k | 0 <= k < |s| ensures s[k] as int < 0x80 {
            if k > 0 { assert s[k] == s[1..][k - 1]; }
          }
        }
      }
      n
  }

  /** Characters that all take `w` bytes take `w` bytes each in total. */
  lemma {:induction false} Utf8LenUniform(s: string, w: nat)
    requires forall k :: 0 <= k < |s| ==> RuneLen(s[k]) == w
    ensures Utf8Len(s) == w * |s|
  {
    if s != [] {
      assert forall k :: 0 <= k < |s[1..]| ==> s[1..][k] == s[k + 1];
      Utf8LenUniform(s[1..], w);
    }
  }

  /** Number of occurrences of `c` in `s`. */
  function Count(s: string, c: char): nat
  {
    if s == [] then 0
    else (if s[0] == c then 1 else 0) + Count(s[1..], c)
  }

  /** strings.Split(s, string(c)): the pieces of `s` between consecutive
      occurrences of `c`; the empty string gives one empty piece. */
  function Split(s: string, c: char): (pieces: seq<string>)
    ensures |pieces| >= 1

    decreases |s|
  {
    var i := IndexOf(s, c);
    if i == |s| then [s] else [s[..i]] + Split(s[i + 1..], c)
  }

  /** strings.Join(parts, sep). */
  function Join(parts: seq<string>, sep: string): string
  {
    if |parts| == 0 then ""
    else if |parts| == 1 then parts[0]
    else parts[0] + sep + Join(parts[1..], sep)
  }

  /** strings.HasPrefix / strings.HasSuffix. */
  predicate HasPrefix(s: string, prefix: string)
  {
    |prefix| <= |s| && s[..|prefix|] == prefix
  }

  predicate HasSuffix(s: string, suffix: string)
  {
    |suffix| <= |s| && s[|s| - |suffix|..] == suffix
  }

  /** strings.Trim(s, string(cut)): drop every leading and trailing `cut`. */
  function TrimLeft(s: string, cut: char): (r: string)
    ensures |r| <= |s|
    ensures r == [] || r[0] != cut
    ensures forall k :: 0 <= k < |s| - |r| ==> s[k] == cut
  {
    if s != [] && s[0] == cut then TrimLeft(s[1..], cut) else s
  }

  function TrimRight(s: string, cut: char): (r: string)
    ensures |r| <= |s| && (r != [] ==> r[0] == s[0])
    ensures r == [] || r[|r| - 1] != cut
    ensures forall k :: |r| <= k < |s| ==> s[k] == cut
  {
    if s != [] && s[|s| - 1] == cut then TrimRight(s[..|s| - 1], cut) else s
  }

  function Trim(s: string, cut: char): (r: string)
    ensures r == [] || (r[0] != cut && r[|r| - 1] != cut)
    ensures |r| <= |s|
  {
    TrimRight(TrimLeft(s, cut), cut)
  }

  /** strings.ToLower restricted to ASCII letters. */
  function LowerChar(ch: char): char
  {
    if 'A' <= ch <= 'Z' then (ch as int - 'A' as int + 'a' as int) as char else ch
  }

  function ToLower(s: string): (r: string)
    ensures |r| == |s|
    ensures forall k :: 0 <= k < |s| ==> r[k] == LowerChar(s[k])
  {
    if s == [] then [] else [LowerChar(s[0])] + ToLower(s[1..])
  }

  /** Lower-casing the first two characters, then the rest. */
  lemma ToLowerPair(s: string)
    requires |s| >= 2
    ensures ToLower(s) == [LowerChar(s[0]), LowerChar(s[1])] + ToLower(s[2..])
  {
    assert s[1..][1..] == s[2..];
  }

  /** A line without its trailing carriage return, if it has one. */
  function DropCR(line: string): (r: string)
    ensures line == r || line == r + "\r"
  {
    if line != [] && line[|line| - 1] == '\r' then line[..|line| - 1] else line
  }

  /** The lines a bufio.Scanner with ScanLines yields for `content`: the
      pieces between newlines, without a final empty piece (text ending in a
      newline, or no text at all) and without trailing carriage returns. */
  function ScanLines(content: string): (lines: seq<string>)
    ensures |lines| == Count(content, '\n') + (if HasSuffix(content, "\n") || content == [] then 0 else 1)
  {
    var pieces := Split(content, '\n');
    SplitLength(content, '\n');
    ScanEnd(content);
    var kept := if pieces[|pieces| - 1] == [] then pieces[..|pieces| - 1] else pieces;
    seq(|kept|, i requires 0 <= i < |kept| => DropCR(kept[i]))
  }

  // ---------------------------------------------------------------------
  // Properties

  /** Joining the pieces of a split with the separator gives the string back. */
  lemma {:induction false} JoinSplit(s: string, c: char)
    ensures Join(Split(s, c), [c]) == s
    decreases |s|
  {
    var i := IndexOf(s, c);
    if i < |s| {
      var rest := s[i + 1..];
      JoinSplit(rest, c);
      var p := Split(s, c);
      SplitStep(s, c, i);
      assert p[1..] == Split(rest, c);
      assert Join(p, [c]) == s[..i] + [c] + rest;
      assert s == s[..i] + [c] + rest;
    }
  }

  /** No piece of a split contains the separator. */
  lemma {:induction false} SplitPiecesFree(s: string, c: char)
    ensures forall k :: 0 <= k < |Split(s, c)| ==> c !in Split(s, c)[k]
    decreases |s|
  {
    var i := IndexOf(s, c);
    if i < |s| {
      SplitPiecesFree(s[i + 1..], c);
      var p := Split(s, c);
      SplitStep(s, c, i);
      forall k | 0 <= k < |p| ensures c !in p[k] {
        if k > 0 { assert p[k] == Split(s[i + 1..], c)[k - 1]; }
      }
    }
  }

  /** A split yields one piece more than there are separators. */
  lemma {:induction false} SplitLength(s: string, c: char)
    ensures |Split(s, c)| == Count(s, c) + 1
    decreases |s|
  {
    var i := IndexOf(s, c);
    CountPrefixFree(s, c, i);
    if i < |s| {
      SplitLength(s[i + 1..], c);
      SplitStep(s, c, i);
    } else {
      SplitWhole(s, c);
    }
  }

  /** Count over a prefix free of `c` followed by the rest. */
  lemma {:induction false} CountPrefixFree(s: string, c: char, i: nat)
    requires i <= |s|
    requires forall k :: 0 <= k < i ==> s[k] != c
    ensures Count(s, c) == (if i < |s| && s[i] == c then 1 + Count(s[i + 1..], c) else Count(s[i..], c))
    decreases i
  {
    if i > 0 {
      CountPrefixFree(s[1..], c, i - 1);
      assert s[1..][i - 1..] == s[i..];
      if i < |s| { assert s[1..][i..] == s[i + 1..]; }
    } else if s != [] && s[0] == c {
      assert s[0 + 1..] == s[1..];
    } else {
      assert s[0..] == s;
    }
  }

  /** Splitting a string that has a separator at a known position splits
      each side independently: the pieces of `a + [c] + b` are the pieces
      of `a` followed by the pieces of `b`. */
  lemma {:induction false} SplitAround(a: string, c: char, b: string)
    ensures Split(a + [c] + b, c) == Split(a, c) + Split(b, c)
    decreases |a|
  {
    var i := IndexOf(a, c);
    IndexOfPrefix(a, c, b);
    if i == |a| {
      SplitAroundFree(a, c, b);
    } else {
      var a' := a[i + 1..];
      SplitAround(a', c, b);
      SplitAroundFirst(a, c, b, i);
      SplitStep(a, c, i);
      ConsAssoc(a[..i], Split(a', c), Split(b, c));
    }
  }

  /** The pieces of `a + [c] + b` when `a` holds no separator. */
  lemma SplitAroundFree(a: string, c: char, b: string)
    requires IndexOf(a, c) == |a| == IndexOf(a + [c] + b, c)
    ensures Split(a + [c] + b, c) == Split(a, c) + Split(b, c)
  {
    var s := a + [c] + b;
    SplitStep(s, c, |a|);
    SplitWhole(a, c);
    assert s[..|a|] == a && s[|a| + 1..] == b;
  }

  /** One step of a split: the piece before the first separator, then the
      pieces after it. */
  lemma SplitStep(s: string, c: char, i: nat)
    requires i == IndexOf(s, c) < |s|
    ensures Split(s, c) == [s[..i]] + Split(s[i + 1..], c)
  {
  }

  /** The first piece runs up to the first separator. */
  lemma SplitFirst(s: string, c: char)
    ensures Split(s, c)[0] == s[..IndexOf(s, c)]
  {
    var i := IndexOf(s, c);
    if i < |s| {
      SplitStep(s, c, i);
    } else {
      SplitWhole(s, c);
    }
  }

  /** A string without the separator is one piece. */
  lemma SplitWhole(s: string, c: char)
    requires IndexOf(s, c) == |s|
    ensures Split(s, c) == [s]
  {
  }

  /** The first piece of `a + [c] + b` when `a` already holds a separator. */
  lemma SplitAroundFirst(a: string, c: char, b: string, i: nat)
    requires i == IndexOf(a, c) == IndexOf(a + [c] + b, c) < |a|
    ensures Split(a + [c] + b, c) == [a[..i]] + Split(a[i + 1..] + [c] + b, c)
  {
    var s := a + [c] + b;
    assert s[..i] == a[..i] by { SliceBefore(a, [c] + b, i); }
    assert s[i + 1..] == a[i + 1..] + [c] + b by { SliceAfter(a, [c] + b, i + 1); }
    SplitStep(s, c, i);
  }

  lemma SliceBefore(x: string, y: string, i: nat)
    requires i <= |x|
    ensures (x + y)[..i] == x[..i]
  {
  }

  lemma SliceAfter(x: string, y: string, j: nat)
    requires j <= |x|
    ensures (x + y)[j..] == x[j..] + y
  {
  }

  lemma ConsAssoc(p: string, x: seq<string>, y: seq<string>)
    ensures [p] + (x + y) == ([p] + x) + y
  {
  }

  lemma IndexOfPrefix(a: string, c: char, b: string)
    ensures IndexOf(a + [c] + b, c) == IndexOf(a, c)
  {
    if a != [] {
      IndexOfPrefix(a[1..], c, b);
      assert (a + [c] + b)[1..] == a[1..] + [c] + b;
    }
  }

  /** Splitting a join of separator-free pieces gives the pieces back. */
  lemma {:induction false} SplitJoin(parts: seq<string>, c: char)
    requires |parts| >= 1
    requires forall k :: 0 <= k < |parts| ==> c !in parts[k]
    ensures Split(Join(parts, [c]), c) == parts
    decreases |parts|
  {
    if |parts| == 1 {
      SplitFree(parts[0], c);
    } else {
      var rest := parts[1..];
      assert forall k :: 0 <= k < |rest| ==> c !in rest[k] by {
        forall k | 0 <= k < |rest| ensures c !in rest[k] {
          assert rest[k] == parts[k + 1];
        }
      }
      SplitJoin(rest, c);
      assert c !in parts[0];
      SplitJoinStep(parts, c);
    }
  }

  lemma SplitJoinStep(parts: seq<string>, c: char)
    requires |parts| >= 2 && c !in parts[0]
    requires Split(Join(parts[1..], [c]), c) == parts[1..]
    ensures Split(Join(parts, [c]), c) == parts
  {
    var rest := parts[1..];
    SplitFree(parts[0], c);
    var joined := Join(rest, [c]);
    assert Join(parts, [c]) == parts[0] + [c] + joined;
    SplitAround(parts[0], c, joined);
    assert parts == [parts[0]] + rest;
  }

  /** A string without the separator is a single piece. */
  lemma SplitFree(s: string, c: char)
    requires c !in s
    ensures Split(s, c) == [s]
  {
    if IndexOf(s, c) < |s| {
      assert false;
    }
  }

  /** Trimming a string that holds no cut character changes nothing. */
  lemma TrimFree(s: string, cut: char)
    requires cut !in s
    ensures Trim(s, cut) == s
  {
    if s != [] {
      assert s[0] in s;
      assert s[|s| - 1] in s;
    }
  }

  /** Trimming a string that neither starts nor ends with the cut
      character changes nothing. */
  lemma TrimUnpadded(s: string, cut: char)
    requires s == [] || (s[0] != cut && s[|s| - 1] != cut)
    ensures Trim(s, cut) == s
  {
  }

  /** A prefix test only looks at the first `|p|` characters. */
  lemma HasPrefixConcat(p: string, s: string)
    ensures HasPrefix(p + s, p)
  {
    assert (p + s)[..|p|] == p;
  }

  /** The last piece of a split on newlines is empty exactly when the text
      is empty or ends in a newline. */
  lemma {:induction false} ScanEnd(content: string)
    ensures var pieces := Split(content, '\n');
            pieces[|pieces| - 1] == [] <==> content == [] || HasSuffix(content, "\n")
    decreases |content|
  {
    var i := IndexOf(content, '\n');
    if i < |content| {
      ScanEnd(content[i + 1..]);
      ScanEndStep(content, i);
    } else {
      ScanEndWhole(content);
    }
  }

  lemma ScanEndWhole(content: string)
    requires IndexOf(content, '\n') == |content|
    ensures var pieces := Split(content, '\n');
            pieces[|pieces| - 1] == [] <==> content == [] || HasSuffix(content, "\n")
  {
    SplitWhole(content, '\n');
    NoSuffixWithout(content, '\n');
  }

  /** A text without a newline does not end in one. */
  lemma NoSuffixWithout(s: string, c: char)
    requires IndexOf(s, c) == |s|
    ensures !HasSuffix(s, [c])
  {
    if s != [] {
      assert s[|s| - 1] != c;
      assert s[|s| - 1..] != [c];
    }
  }

  lemma ScanEndStep(content: string, i: nat)
    requires i == IndexOf(content, '\n') < |content|
    requires var pieces := Split(content[i + 1..], '\n');
             pieces[|pieces| - 1] == [] <==> content[i + 1..] == [] || HasSuffix(content[i + 1..], "\n")
    ensures var pieces := Split(content, '\n');
            pieces[|pieces| - 1] == [] <==> content == [] || HasSuffix(content, "\n")
  {
    LastPieceAfter(content, '\n', i);
    SuffixAfter(content, i);
  }

  /** The last piece of a split is the last piece of what follows the
      first separator. */
  lemma LastPieceAfter(s: string, c: char, i: nat)
    requires i == IndexOf(s, c) < |s|
    ensures var p := Split(s, c);
            var q := Split(s[i + 1..], c);
            p[|p| - 1] == q[|q| - 1]
  {
    SplitStep(s, c, i);
  }

  /** A text with a newline at `i` ends in a newline exactly when the text
      after position `i` is empty or ends in one. */
  lemma SuffixAfter(content: string, i: nat)
    requires i < |content| && content[i] == '\n'
    ensures HasSuffix(content, "\n") <==> content[i + 1..] == [] || HasSuffix(content[i + 1..], "\n")
  {
    var rest := content[i + 1..];
    if rest != [] {
      assert content[|content| - 1..] == rest[|rest| - 1..];
    } else {
      assert content[|content| - 1..] == "\n";
    }
  }

  /** Lines written one per row, each ended by a newline, are scanned back
      as they were, provided they hold no newline and end in no carriage
      return. */
  lemma ScanLinesOfLines(lines: seq<string>)
    requires |lines| >= 1
    requires forall k :: 0 <= k < |lines| ==> '\n' !in lines[k] && DropCR(lines[k]) == lines[k]
    ensures ScanLines(Join(lines + [""], "\n")) == lines
  {
    var all := lines + [""];
    FreeWithEmpty(lines, '\n');
    SplitJoin(all, '\n');
    ScanLinesExact(Join(all, "\n"), lines);
  }

  lemma FreeWithEmpty(lines: seq<string>, c: char)
    requires forall k :: 0 <= k < |lines| ==> c !in lines[k]
    ensures forall k :: 0 <= k < |lines + [""]| ==> c !in (lines + [""])[k]
  {
    var all := lines + [""];
    forall k | 0 <= k < |all| ensures c !in all[k] {
      if k < |lines| { assert all[k] == lines[k]; }
    }
  }

  lemma ScanLinesExact(content: string, lines: seq<string>)
    requires Split(content, '\n') == lines + [""]
    requires forall k :: 0 <= k < |lines| ==> DropCR(lines[k]) == lines[k]
    ensures ScanLines(content) == lines
  {
    var all := lines + [""];
    assert all[..|all| - 1] == lines;
    var scanned := ScanLines(content);
    forall k | 0 <= k < |lines| ensures scanned[k] == lines[k] {
      assert scanned[k] == DropCR(all[k]);
    }
  }
}
