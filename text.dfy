/** The string operations the bots take from Python's `str`, written out over `seq<char>`. */
module Text {

  datatype Option<+T> = None | Some(value: T)

  /** Python's `str.isspace()` for one character; `\s` in a `str` regular expression matches the same set. */
  predicate IsSpace(c: char)
  {
    || c == ' '
    || ('\t' <= c <= '\r')
    || ('\U{1C}' <= c <= '\U{1F}')
    || c == '\U{85}' || c == '\U{A0}' || c == '\U{1680}'
    || ('\U{2000}' <= c <= '\U{200A}')
    || c == '\U{2028}' || c == '\U{2029}' || c == '\U{202F}' || c == '\U{205F}' || c == '\U{3000}'
  }

  /** The number of leading whitespace characters of `s`. */
  function LeadingSpaces(s: string): (k: nat)
    ensures k <= |s|
    ensures k < |s| ==> !IsSpace(s[k])
  {
    if s != [] && IsSpace(s[0]) then 1 + LeadingSpaces(s[1..]) else 0
  }

  /** Every character of `t` is whitespace. */
  predicate AllSpace(t: string)
  {
    t == [] || (IsSpace(t[0]) && AllSpace(t[1..]))
  }

  /** `AllSpace` says of every index that its character is whitespace. */
  lemma {:induction false} AllSpaceEvery(t: string)
    ensures AllSpace(t) <==> forall j :: 0 <= j < |t| ==> IsSpace(t[j])
  {
    if t != [] {
      AllSpaceEvery(t[1..]);
      assert forall j :: 1 <= j < |t| ==> t[j] == t[1..][j - 1];
    }
  }

  /** A run of whitespace followed by one more whitespace character is a run of whitespace. */
  lemma {:induction false} AllSpaceSnoc(t: string, c: char)
    requires AllSpace(t) && IsSpace(c)
    ensures AllSpace(t + [c])
  {
    if t != [] {
      assert (t + [c])[1..] == t[1..] + [c];
      AllSpaceSnoc(t[1..], c);
    }
  }

  /** Everything `LeadingSpaces` counts is whitespace. */
  lemma {:induction false} LeadingSpacesAreSpace(s: string)
    ensures AllSpace(s[..LeadingSpaces(s)])
  {
    if s != [] && IsSpace(s[0]) {
      LeadingSpacesAreSpace(s[1..]);
      assert s[..LeadingSpaces(s)][1..] == s[1..][..LeadingSpaces(s[1..])];
    }
  }

  /** The index where the trailing whitespace of `s` begins. */
  function TrailingStart(s: string): (k: nat)
    ensures k <= |s|
    ensures k > 0 ==> !IsSpace(s[k - 1])
  {
    if s != [] && IsSpace(s[|s| - 1]) then TrailingStart(s[..|s| - 1]) else |s|
  }

  /** Everything from `TrailingStart` on is whitespace. */
  lemma {:induction false} TrailingSpacesAreSpace(s: string)
    ensures AllSpace(s[TrailingStart(s)..])
  {
    if s != [] && IsSpace(s[|s| - 1]) {
      var init := s[..|s| - 1];
      TrailingSpacesAreSpace(init);
      AllSpaceSnoc(init[TrailingStart(init)..], s[|s| - 1]);
      assert s[TrailingStart(s)..] == init[TrailingStart(init)..] + [s[|s| - 1]];
    }
  }

  /** `str.lstrip()`: the suffix left after dropping leading whitespace, all of which is dropped. */
  function LStrip(s: string): (r: string)
    ensures |r| <= |s| && r == s[|s| - |r|..]
    ensures r == [] || !IsSpace(r[0])
    ensures AllSpace(s[..|s| - |r|])
  {
    LeadingSpacesAreSpace(s);
    s[LeadingSpaces(s)..]
  }

  /** `str.rstrip()`: the prefix left after dropping trailing whitespace, all of which is dropped. */
  function RStrip(s: string): (r: string)
    ensures |r| <= |s| && r == s[..|r|]
    ensures r == [] || !IsSpace(r[|r| - 1])
    ensures AllSpace(s[|r|..])
  {
    TrailingSpacesAreSpace(s);
    s[..TrailingStart(s)]
  }

  /** `r` is the text of `s` from index `i` on, and everything of `s` before and after it is whitespace. */
  predicate MiddleAt(s: string, r: string, i: nat)
  {
    && i + |r| <= |s|
    && r == s[i..i + |r|]
    && AllSpace(s[..i])
    && AllSpace(s[i + |r|..])
  }

  /** `str.strip()`: no whitespace is left at either end; `StripMiddle` shows that only whitespace is dropped. */
  function Strip(s: string): (r: string)
    ensures |r| <= |s|
    ensures r == [] || (!IsSpace(r[0]) && !IsSpace(r[|r| - 1]))
  {
    var l := LStrip(s);
    var r := RStrip(l);
    assert r == [] || r[0] == l[0];
    r
  }

  /** What `str.strip()` leaves is the middle of the input: only whitespace is dropped, at either end. */
  lemma StripMiddle(s: string)
    ensures exists i: nat :: MiddleAt(s, Strip(s), i)
  {
    var l := LStrip(s);
    var r := Strip(s);
    var i := |s| - |l|;
    assert r == s[i..i + |r|];
    assert s[i + |r|..] == l[|r|..];
    assert MiddleAt(s, r, i);
  }

  /** Stripping removes characters only: everything left was in the input. */
  lemma StripInside(s: string)
    ensures forall c :: c in Strip(s) ==> c in s
  {
    var l := LStrip(s);
    assert forall c :: c in RStrip(l) ==> c in l;
  }

  /** The number of leading copies of `c` in `s`. */
  function LeadingChars(s: string, c: char): (k: nat)
    ensures k <= |s|
    ensures forall i :: 0 <= i < k ==> s[i] == c
    ensures k < |s| ==> s[k] != c
  {
    if s != [] && s[0] == c then 1 + LeadingChars(s[1..], c) else 0
  }

  /** A string with no whitespace at either end strips to itself. */
  lemma StripTrimmed(s: string)
    requires s != [] && !IsSpace(s[0]) && !IsSpace(s[|s| - 1])
    ensures Strip(s) == s
  {
    assert LeadingSpaces(s) == 0;
    assert TrailingStart(s) == |s|;
  }

  /** One blank in front of a string with no whitespace at either end is stripped away. */
  lemma StripBlankFront(s: string)
    requires s != [] && !IsSpace(s[0]) && !IsSpace(s[|s| - 1])
    ensures Strip(" " + s) == s
  {
    var t := " " + s;
    assert t[1..] == s;
    assert LeadingSpaces(s) == 0;
    assert LeadingSpaces(t) == 1;
    assert LStrip(t) == s;
    assert TrailingStart(s) == |s|;
  }

  /** One blank after a string with no whitespace at either end is stripped away. */
  lemma StripBlankBack(s: string)
    requires s != [] && !IsSpace(s[0]) && !IsSpace(s[|s| - 1])
    ensures Strip(s + " ") == s
  {
    var t := s + " ";
    assert t[..|s|] == s;
    assert LeadingSpaces(t) == 0;
    assert TrailingStart(s) == |s|;
    assert TrailingStart(t) == |s|;
  }

  /** `str.lstrip(c)` for a single character `c`: drops every leading `c`. */
  function LStripChar(s: string, c: char): (r: string)
    ensures |r| <= |s| && r == s[|s| - |r|..]
    ensures r == [] || r[0] != c
    ensures forall i :: 0 <= i < |s| - |r| ==> s[i] == c
  {
    s[LeadingChars(s, c)..]
  }

  /** One leading `c` before a string that does not start with `c` is dropped. */
  lemma LStripCharOne(s: string, c: char)
    requires s == [] || s[0] != c
    ensures LStripChar([c] + s, c) == s
  {
    assert ([c] + s)[1..] == s;
    assert LeadingChars(s, c) == 0;
  }

  /** Lower-casing of one character, on the ASCII letters. */
  function LowerChar(c: char): char
  {
    if 'A' <= c <= 'Z' then (c as int - 'A' as int + 'a' as int) as char else c
  }

  /** `str.lower()` on the ASCII letters; every other character is left as it is. */
  function Lower(s: string): (r: string)
    ensures |r| == |s|
    ensures forall i :: 0 <= i < |s| ==> r[i] == LowerChar(s[i])
  {
    seq(|s|, i requires 0 <= i < |s| => LowerChar(s[i]))
  }

  /** Lower-casing leaves a string without upper-case ASCII letters as it is. */
  lemma LowerAsciiLower(s: string)
    requires forall c :: c in s ==> !('A' <= c <= 'Z')
    ensures Lower(s) == s
  {
    assert forall i :: 0 <= i < |s| ==> s[i] in s;
  }

  /** Whether `p` occurs in `s` starting at index `i`. */
  predicate OccursAt(s: string, p: string, i: nat)
  {
    i + |p| <= |s| && s[i..i + |p|] == p
  }

  /** `p in s` for strings: `p` occurs in `s` as a contiguous substring. */
  predicate Contains(s: string, p: string)
  {
    exists i: nat :: i <= |s| && OccursAt(s, p, i)
  }

  /** When the first character of `p` occurs in `s` only at index `k`, an occurrence of `p` must start there. */
  lemma ContainsOnlyAt(s: string, p: string, k: nat)
    requires p != []
    requires forall i :: 0 <= i < |s| && s[i] == p[0] ==> i == k
    ensures Contains(s, p) ==> OccursAt(s, p, k)
  {
    if Contains(s, p) {
      var i: nat :| i <= |s| && OccursAt(s, p, i);
      assert s[i] == s[i..i + |p|][0];
    }
  }

  /** So `p` is absent when the only place it could start holds a mismatch at offset `j`. */
  lemma NotContainsMismatch(s: string, p: string, k: nat, j: nat)
    requires j < |p|
    requires forall i :: 0 <= i < |s| && s[i] == p[0] ==> i == k
    requires k + |p| <= |s| ==> s[k + j] != p[j]
    ensures !Contains(s, p)
  {
    ContainsOnlyAt(s, p, k);
    if k + |p| <= |s| {
      assert s[k..k + |p|][j] == s[k + j];
    }
  }

  /** A string whose first character does not occur in `s` does not occur in `s`. */
  lemma NotContainsFirst(s: string, p: string)
    requires p != [] && p[0] !in s
    ensures !Contains(s, p)
  {
    forall i: nat | i <= |s| ensures !OccursAt(s, p, i) {
      if i + |p| <= |s| {
        assert s[i..i + |p|][0] == s[i];
      }
    }
  }

  /** A character that occurs in neither piece occurs in `a + [c] + b` only at index `|a|`. */
  lemma OnlyBetween(a: string, c: char, b: string)
    requires c !in a && c !in b
    ensures forall i :: 0 <= i < |a + [c] + b| && (a + [c] + b)[i] == c ==> i == |a|
  {
  }

  /** `str.find(c)`, with `|s|` standing for "absent". */
  function IndexOf(s: string, c: char): (k: nat)
    ensures k <= |s|
    ensures forall i :: 0 <= i < k ==> s[i] != c
    ensures k < |s| ==> s[k] == c
  {
    if s == [] then 0 else if s[0] == c then 0 else 1 + IndexOf(s[1..], c)
  }

  /** The first occurrence of `c` after a piece without `c` is the one right after that piece. */
  lemma IndexOfAfter(p: string, c: char, t: string)
    requires c !in p
    ensures IndexOf(p + [c] + t, c) == |p|
  {
    var s := p + [c] + t;
    assert forall i :: 0 <= i < |p| ==> s[i] == p[i] && s[i] != c;
    assert s[|p|] == c;
  }

  /** A character that does not occur is found at the end. */
  lemma {:induction false} IndexOfAbsent(s: string, c: char)
    requires c !in s
    ensures IndexOf(s, c) == |s|
  {
    if s != [] {
      assert c !in s[1..];
      IndexOfAbsent(s[1..], c);
    }
  }

  /** `s.split(c, 1)[0]`: the text before the first `c`, or all of `s`. */
  function Before(s: string, c: char): (r: string)
    ensures r <= s && c !in r
    ensures |r| < |s| ==> s[|r|] == c
  {
    s[..IndexOf(s, c)]
  }

  /** `s.split(c, 1)[1]`: the text after the first `c` (empty when there is none). */
  function After(s: string, c: char): (r: string)
    ensures |r| <= |s|
    ensures c in s ==> s == Before(s, c) + [c] + r
    ensures c !in s ==> r == []
  {
    var k := IndexOf(s, c);
    if k < |s| then
      assert s == s[..k] + [c] + s[k + 1..];
      s[k + 1..]
    else
      assert c !in s by {
        forall i | 0 <= i < |s| ensures s[i] != c {
        }
      }
      []
  }

  /** `s.split(c)` for a one-character separator: never empty. */
  function Split(s: string, c: char): (parts: seq<string>)
    ensures |parts| >= 1
    decreases |s|
  {
    var k := IndexOf(s, c);
    if k == |s| then [s] else [s[..k]] + Split(s[k + 1..], c)
  }

  /** No piece of a split contains the separator. */
  lemma {:induction false} SplitNoSeparator(s: string, c: char)
    ensures forall p :: p in Split(s, c) ==> c !in p
    decreases |s|
  {
    var k := IndexOf(s, c);
    if k < |s| {
      SplitNoSeparator(s[k + 1..], c);
      assert c !in s[..k];
    }
  }

  /** `c.join(parts)` for a one-character separator. */
  function Join(parts: seq<string>, c: char): string
  {
    if parts == [] then []
    else if |parts| == 1 then parts[0]
    else parts[0] + [c] + Join(parts[1..], c)
  }

  /** Joining a piece in front of a non-empty list puts one separator between them. */
  lemma JoinCons(a: string, rest: seq<string>, c: char)
    requires rest != []
    ensures Join([a] + rest, c) == a + [c] + Join(rest, c)
  {
    assert ([a] + rest)[1..] == rest;
  }

  /** A string is the text before index `k`, the character at `k`, and the text after it. */
  lemma SliceAround(s: string, k: nat)
    requires k < |s|
    ensures s == s[..k] + [s[k]] + s[k + 1..]
  {
  }

  /** Joining the pieces of a split restores the string. */
  lemma {:induction false} JoinSplit(s: string, c: char)
    ensures Join(Split(s, c), c) == s
    decreases |s|
  {
    var k := IndexOf(s, c);
    if k < |s| {
      var head, rest := s[..k], s[k + 1..];
      var tail := Split(rest, c);
      assert Split(s, c) == [head] + tail;
      JoinSplit(rest, c);
      JoinCons(head, tail, c);
      SliceAround(s, k);
    } else {
      assert Split(s, c) == [s];
    }
  }

  /** Splitting a join restores the pieces, when no piece holds the separator. */
  lemma {:induction false} SplitJoin(parts: seq<string>, c: char)
    requires parts != []
    requires forall p :: p in parts ==> c !in p
    ensures Split(Join(parts, c), c) == parts
  {
    if |parts| == 1 {
      IndexOfAbsent(parts[0], c);
    } else {
      var head, rest := parts[0], Join(parts[1..], c);
      var s := head + [c] + rest;
      assert Join(parts, c) == s;
      IndexOfAfter(head, c, rest);
      assert s[..|head|] == head;
      assert s[|head| + 1..] == rest;
      SplitJoin(parts[1..], c);
      assert Split(s, c) == [head] + parts[1..];
    }
  }

  /** A string without the separator splits into itself alone. */
  lemma SplitOne(s: string, c: char)
    requires c !in s
    ensures Split(s, c) == [s]
  {
    IndexOfAbsent(s, c);
  }

  /** Two pieces joined by the separator split back into those two. */
  lemma SplitTwo(a: string, b: string, c: char)
    requires c !in a && c !in b
    ensures Split(a + [c] + b, c) == [a, b]
  {
    SplitJoin([a, b], c);
    assert Join([a, b], c) == a + [c] + Join([b], c);
  }

  /** Joining with a separator appended at the end: the last piece comes after one more separator. */
  lemma {:induction false} JoinSnoc(parts: seq<string>, x: string, c: char)
    requires parts != []
    ensures Join(parts + [x], c) == Join(parts, c) + [c] + x
  {
    if |parts| > 1 {
      assert (parts + [x])[1..] == parts[1..] + [x];
      JoinSnoc(parts[1..], x, c);
    }
  }

  /** `s.replace(target, replacement)`: every non-overlapping occurrence, scanned from the left; an empty target
      inserts the replacement before every character and at the end, as Python does. */
  function Replace(s: string, target: string, replacement: string): string
    decreases |s|
  {
    if target == [] then
      if s == [] then replacement else replacement + [s[0]] + Replace(s[1..], target, replacement)
    else if |s| < |target| then s
    else if target <= s then replacement + Replace(s[|target|..], target, replacement)
    else [s[0]] + Replace(s[1..], target, replacement)
  }

  /** Replacing a string by itself changes nothing. */
  lemma {:induction false} ReplaceSame(s: string, t: string)
    ensures Replace(s, t, t) == s
    decreases |s|
  {
    if t == [] {
      if s != [] {
        ReplaceSame(s[1..], t);
        assert s == [s[0]] + s[1..];
      }
    } else if |s| < |t| {
    } else if t <= s {
      ReplaceSame(s[|t|..], t);
      assert s == t + s[|t|..];
    } else {
      ReplaceSame(s[1..], t);
      assert s == [s[0]] + s[1..];
    }
  }

  /** `s.replace(a, b)` for single characters. */
  function ReplaceChar(s: string, a: char, b: char): (r: string)
    ensures |r| == |s|
    ensures forall i :: 0 <= i < |s| ==> r[i] == (if s[i] == a then b else s[i])
  {
    seq(|s|, i requires 0 <= i < |s| => if s[i] == a then b else s[i])
  }

  /** One of the boundaries `str.splitlines()` breaks at. */
  predicate IsLineBreak(c: char)
  {
    || ('\n' <= c <= '\r')
    || ('\U{1C}' <= c <= '\U{1E}')
    || c == '\U{85}' || c == '\U{2028}' || c == '\U{2029}'
  }

  /** The index of the first line break in `s`, or `|s|`. */
  function LineBreakIndex(s: string): (k: nat)
    ensures k <= |s|
    ensures forall i :: 0 <= i < k ==> !IsLineBreak(s[i])
    ensures k < |s| ==> IsLineBreak(s[k])
  {
    if s == [] then 0 else if IsLineBreak(s[0]) then 0 else 1 + LineBreakIndex(s[1..])
  }

  /** The width of the line break at index `k`: "\r\n" counts as one break of two characters. */
  function BreakWidth(s: string, k: nat): (w: nat)
    requires k < |s|
    ensures k + w <= |s|
  {
    if s[k] == '\r' && k + 1 < |s| && s[k + 1] == '\n' then 2 else 1
  }

  /** No character of `line` is a line break. */
  predicate NoBreakIn(line: string)
  {
    forall i :: 0 <= i < |line| ==> !IsLineBreak(line[i])
  }

  /** `str.splitlines()`: the lines without their breaks; "\r\n" is one break, and a final break adds no empty line. */
  function SplitLines(s: string): (lines: seq<string>)
    ensures forall i :: 0 <= i < |lines| ==> NoBreakIn(lines[i])
    decreases |s|
  {
    if s == [] then []
    else
      var k := LineBreakIndex(s);
      if k == |s| then [s]
      else
        [s[..k]] + SplitLines(s[k + BreakWidth(s, k)..])
  }

  /** The two classes of characters the splitting functions break at. */
  datatype CharClass = Whitespace | LineBreaks

  /** Whether `c` belongs to class `cls`. */
  predicate InClass(cls: CharClass, c: char)
  {
    match cls
    case Whitespace => IsSpace(c)
    case LineBreaks => IsLineBreak(c)
  }

  /** The characters of `s` outside class `cls`, in order. */
  function Without(s: string, cls: CharClass): string
  {
    if s == [] then [] else (if InClass(cls, s[0]) then [] else [s[0]]) + Without(s[1..], cls)
  }

  /** The pieces of a list written one after another. */
  function Concat(parts: seq<string>): string
  {
    if parts == [] then [] else parts[0] + Concat(parts[1..])
  }

  /** Writing out a piece put in front of a list. */
  lemma ConcatCons(x: string, parts: seq<string>)
    ensures Concat([x] + parts) == x + Concat(parts)
  {
    assert ([x] + parts)[1..] == parts;
  }

  /** A run of `k` characters outside the class is kept as it is. */
  lemma {:induction false} WithoutRun(s: string, k: nat, cls: CharClass)
    requires k <= |s|
    requires forall i :: 0 <= i < k ==> !InClass(cls, s[i])
    ensures Without(s, cls) == s[..k] + Without(s[k..], cls)
  {
    if k > 0 {
      var t := s[1..];
      WithoutRun(t, k - 1, cls);
      assert t[k - 1..] == s[k..];
      assert s[..k] == [s[0]] + t[..k - 1];
    }
  }

  /** A run of `width` characters inside the class is dropped. */
  lemma {:induction false} WithoutGap(s: string, width: nat, cls: CharClass)
    requires width <= |s|
    requires forall i :: 0 <= i < width ==> InClass(cls, s[i])
    ensures Without(s, cls) == Without(s[width..], cls)
  {
    if width > 0 {
      var t := s[1..];
      WithoutGap(t, width - 1, cls);
      assert t[width - 1..] == s[width..];
    }
  }

  /** A run of `k` characters outside the class, then `width` characters inside it: only the run is kept before
      the rest. */
  lemma WithoutRunThenBreak(s: string, k: nat, width: nat, cls: CharClass)
    requires k + width <= |s|
    requires forall i :: 0 <= i < k ==> !InClass(cls, s[i])
    requires forall i :: k <= i < k + width ==> InClass(cls, s[i])
    ensures Without(s, cls) == s[..k] + Without(s[k + width..], cls)
  {
    WithoutRun(s, k, cls);
    var t := s[k..];
    assert forall i :: 0 <= i < width ==> t[i] == s[k + i];
    WithoutGap(t, width, cls);
    assert t[width..] == s[k + width..];
  }

  /** The characters a line break at index `k` spans are all line breaks. */
  lemma BreakSpan(s: string, k: nat)
    requires k < |s| && IsLineBreak(s[k])
    ensures forall i :: k <= i < k + BreakWidth(s, k) ==> InClass(LineBreaks, s[i])
  {
  }

  /** The lines of `splitlines()`, written one after another, are the text with its line breaks taken out. */
  lemma {:induction false} SplitLinesText(s: string)
    ensures Concat(SplitLines(s)) == Without(s, LineBreaks)
    decreases |s|
  {
    if s != [] {
      var k := LineBreakIndex(s);
      var lines := SplitLines(s);
      if k == |s| {
        assert lines == [s];
        ConcatCons(s, []);
        WithoutRunThenBreak(s, k, 0, LineBreaks);
        assert s[..k] == s;
      } else {
        var rest := s[k + BreakWidth(s, k)..];
        assert lines == [s[..k]] + SplitLines(rest);
        SplitLinesText(rest);
        ConcatCons(s[..k], SplitLines(rest));
        BreakSpan(s, k);
        WithoutRunThenBreak(s, k, BreakWidth(s, k), LineBreaks);
      }
    }
  }

  /** `e` is one whole line break when `next` follows it: "\r\n", or a single break character that is not a
      "\r" with a "\n" right after it. */
  predicate WholeBreak(e: string, next: string)
  {
    || e == "\r\n"
    || (|e| == 1 && IsLineBreak(e[0]) && !(e[0] == '\r' && next != [] && next[0] == '\n'))
  }

  /** `s` starts with `line` and then `e`, where the line holds no line break and `e` is one whole line break, or
      is empty when a non-empty line runs to the end of the text. */
  predicate LineAtFront(s: string, line: string, e: string)
  {
    && |line| + |e| <= |s|
    && s[..|line|] == line
    && s[|line|..|line| + |e|] == e
    && NoBreakIn(line)
    && (e == [] ==> |line| == |s| && line != [])
    && (e != [] ==> WholeBreak(e, s[|line| + |e|..]))
  }

  /** `s` is `lines[0] + ends[0] + lines[1] + ends[1] + …`, where every line and its end are as `LineAtFront`
      describes: the lines end exactly at the line breaks. */
  predicate LinesBetween(s: string, lines: seq<string>, ends: seq<string>)
    requires |ends| == |lines|
    decreases |lines|
  {
    if lines == [] then s == []
    else
      && LineAtFront(s, lines[0], ends[0])
      && LinesBetween(s[|lines[0]| + |ends[0]|..], lines[1..], ends[1..])
  }

  /** The line break that ends each line of `splitlines()`, or the empty string after a last line that runs to
      the end of the text. */
  function LineEnds(s: string): (ends: seq<string>)
    decreases |s|
  {
    if s == [] then []
    else
      var k := LineBreakIndex(s);
      if k == |s| then [[]]
      else
        var b := k + BreakWidth(s, k);
        [s[k..b]] + LineEnds(s[b..])
  }

  /** The break found by `LineBreakIndex` and `BreakWidth` is one whole line break. */
  lemma BreakIsWhole(s: string, k: nat)
    requires k < |s| && IsLineBreak(s[k])
    ensures WholeBreak(s[k..k + BreakWidth(s, k)], s[k + BreakWidth(s, k)..])
  {
    var w := BreakWidth(s, k);
    if w == 2 {
      assert s[k..k + w] == "\r\n";
    } else {
      assert s[k..k + w] == [s[k]];
    }
  }

  /** The lines of `splitlines()` end exactly at the line breaks of the text: with their ends, they make up the
      text as `LinesBetween` describes. */
  lemma {:induction false} SplitLinesBreaks(s: string)
    ensures |LineEnds(s)| == |SplitLines(s)|
    ensures LinesBetween(s, SplitLines(s), LineEnds(s))
    decreases |s|
  {
    if s != [] {
      var k := LineBreakIndex(s);
      var lines := SplitLines(s);
      var ends := LineEnds(s);
      assert NoBreakIn(s[..k]) by {
        forall i | 0 <= i < k ensures !IsLineBreak(s[..k][i]) {
          assert s[..k][i] == s[i];
        }
      }
      if k == |s| {
        assert lines == [s] && ends == [[]];
        assert s[..k] == s;
        assert LinesBetween(s[k..], lines[1..], ends[1..]);
      } else {
        var b := k + BreakWidth(s, k);
        var rest := s[b..];
        assert lines == [s[..k]] + SplitLines(rest);
        assert ends == [s[k..b]] + LineEnds(rest);
        SplitLinesBreaks(rest);
        BreakIsWhole(s, k);
        assert lines[1..] == SplitLines(rest) && ends[1..] == LineEnds(rest);
      }
    }
  }

  /** A text without line breaks before index `a` and a line break at `a` has its first break at `a`. */
  lemma FirstBreakAt(s: string, a: nat)
    requires a <= |s|
    requires NoBreakIn(s[..a])
    requires a < |s| ==> IsLineBreak(s[a])
    ensures LineBreakIndex(s) == a
  {
    var k := LineBreakIndex(s);
    if k < a {
      assert s[..a][k] == s[k];
    }
  }

  /** A whole line break at index `a` is the break `LineBreakIndex` and `BreakWidth` find there. */
  lemma WholeBreakWidth(s: string, a: nat, w: nat)
    requires a + w <= |s| && w > 0
    requires WholeBreak(s[a..a + w], s[a + w..])
    ensures IsLineBreak(s[a]) && BreakWidth(s, a) == w
  {
    var e := s[a..a + w];
    assert e[0] == s[a];
    if w == 2 {
      assert e[1] == s[a + 1];
    } else if a + 1 < |s| {
      assert s[a + w..][0] == s[a + 1];
    }
  }

  /** A first line without breaks that runs to the end of the text is the only line of `splitlines()`. */
  lemma SplitLinesLast(s: string)
    requires s != [] && NoBreakIn(s)
    ensures SplitLines(s) == [s]
  {
    assert s[..|s|] == s;
    FirstBreakAt(s, |s|);
  }

  /** A text with a line break: its first line, then the lines after that break. */
  lemma SplitLinesStep(s: string, k: nat, w: nat)
    requires k == LineBreakIndex(s) < |s| && w == BreakWidth(s, k)
    ensures SplitLines(s) == [s[..k]] + SplitLines(s[k + w..])
  {
  }

  /** A first line without breaks, followed by one whole line break of width `w`, is the first line of
      `splitlines()`, and the rest of the lines come from the text after that break. */
  lemma SplitLinesAtBreak(s: string, a: nat, w: nat)
    requires a + w <= |s| && w > 0
    requires NoBreakIn(s[..a])
    requires WholeBreak(s[a..a + w], s[a + w..])
    ensures SplitLines(s) == [s[..a]] + SplitLines(s[a + w..])
  {
    WholeBreakWidth(s, a, w);
    FirstBreakAt(s, a);
    SplitLinesStep(s, a, w);
  }

  /** A line without breaks followed by one whole line break is the first line, and the rest of the lines come
      from the text after that break. */
  lemma SplitLinesAtLine(s: string, line: string, e: string)
    requires |line| + |e| <= |s| && e != []
    requires s[..|line|] == line && s[|line|..|line| + |e|] == e
    requires NoBreakIn(line)
    requires WholeBreak(e, s[|line| + |e|..])
    ensures SplitLines(s) == [line] + SplitLines(s[|line| + |e|..])
  {
    SplitLinesAtBreak(s, |line|, |e|);
  }

  /** A line without breaks that makes up the whole text is its only line. */
  lemma SplitLinesAtEnd(s: string, line: string)
    requires s == line && line != [] && NoBreakIn(line)
    ensures SplitLines(s) == [line] + SplitLines(s[|line|..])
  {
    SplitLinesLast(s);
    assert s[|line|..] == [];
  }

  /** A line and its end at the front of the text are the first line of `splitlines()`, and the rest of the lines
      come from the text after them. */
  lemma SplitLinesAtFront(s: string, line: string, e: string)
    requires LineAtFront(s, line, e)
    ensures SplitLines(s) == [line] + SplitLines(s[|line| + |e|..])
  {
    if e == [] {
      SplitLinesAtEnd(s, line);
    } else {
      SplitLinesAtLine(s, line, e);
    }
  }

  /** `splitlines()` is the only way to cut the text into lines that end exactly at its line breaks. */
  lemma {:induction false} SplitLinesUnique(s: string, lines: seq<string>, ends: seq<string>)
    requires |ends| == |lines|
    requires LinesBetween(s, lines, ends)
    ensures lines == SplitLines(s)
    decreases |lines|
  {
    if lines != [] {
      SplitLinesAtFront(s, lines[0], ends[0]);
      SplitLinesUnique(s[|lines[0]| + |ends[0]|..], lines[1..], ends[1..]);
      assert lines == [lines[0]] + lines[1..];
    }
  }

  /** The index of the first whitespace character in `s`, or `|s|`. */
  function SpaceIndex(s: string): (k: nat)
    ensures k <= |s|
    ensures forall i :: 0 <= i < k ==> !IsSpace(s[i])
    ensures k < |s| ==> IsSpace(s[k])
  {
    if s == [] then 0 else if IsSpace(s[0]) then 0 else 1 + SpaceIndex(s[1..])
  }

  /** `str.split()` with no separator: the maximal runs of non-whitespace characters, in order. */
  function SplitWords(s: string): (words: seq<string>)
    decreases |s|
  {
    var t := LStrip(s);
    if t == [] then []
    else
      var k := SpaceIndex(t);
      [t[..k]] + SplitWords(t[k..])
  }

  /** Leading whitespace contributes nothing once whitespace is taken out. */
  lemma WithoutLeading(s: string)
    ensures Without(s, Whitespace) == Without(LStrip(s), Whitespace)
  {
    var d := |s| - |LStrip(s)|;
    AllSpaceEvery(s[..d]);
    assert forall i :: 0 <= i < d ==> s[..d][i] == s[i];
    WithoutRunThenBreak(s, 0, d, Whitespace);
  }

  /** The first word of `str.split()` is the run of non-whitespace after the leading whitespace. */
  lemma SplitWordsFirst(s: string)
    requires LStrip(s) != []
    ensures var t := LStrip(s);
            var k := SpaceIndex(t);
            SplitWords(s) == [t[..k]] + SplitWords(t[k..])
  {
  }

  /** The words of `str.split()`, written one after another, are the text with its whitespace taken out. */
  lemma {:induction false} SplitWordsText(s: string)
    ensures Concat(SplitWords(s)) == Without(s, Whitespace)
    decreases |s|
  {
    WithoutLeading(s);
    var t := LStrip(s);
    if t != [] {
      var k := SpaceIndex(t);
      SplitWordsFirst(s);
      SplitWordsText(t[k..]);
      ConcatCons(t[..k], SplitWords(t[k..]));
      WithoutRunThenBreak(t, k, 0, Whitespace);
    }
  }

  /** Every word of `str.split()` is non-empty and holds no whitespace, and the words, written one after another,
      are the text with its whitespace taken out: they are the maximal runs of non-whitespace, in order. */
  lemma {:induction false} SplitWordsShape(s: string)
    ensures forall w :: w in SplitWords(s) ==> w != [] && forall c :: c in w ==> !IsSpace(c)
    ensures Concat(SplitWords(s)) == Without(s, Whitespace)
    decreases |s|
  {
    var t := LStrip(s);
    if t != [] {
      var k := SpaceIndex(t);
      assert k > 0;
      SplitWordsShape(t[k..]);
      assert forall c :: c in t[..k] ==> !IsSpace(c) by {
        forall i | 0 <= i < k ensures !IsSpace(t[..k][i]) {
        }
      }
    }
    SplitWordsText(s);
  }

  /** No character of `w` is whitespace. */
  predicate NoSpaceIn(w: string)
  {
    forall i :: 0 <= i < |w| ==> !IsSpace(w[i])
  }

  /** The text `gaps[0] + words[0] + gaps[1] + … + words[n - 1] + gaps[n]`. */
  function Interleave(gaps: seq<string>, words: seq<string>): string
    requires |gaps| == |words| + 1
    decreases |words|
  {
    if words == [] then gaps[0] else gaps[0] + words[0] + Interleave(gaps[1..], words[1..])
  }

  /** Every gap is whitespace, every word is a non-empty run without whitespace, and the gap between two words is
      not empty: the words are then the maximal runs of non-whitespace of `Interleave(gaps, words)`, in order. */
  predicate Separated(gaps: seq<string>, words: seq<string>)
    requires |gaps| == |words| + 1
    decreases |words|
  {
    && AllSpace(gaps[0])
    && (words != [] ==>
          && words[0] != [] && NoSpaceIn(words[0])
          && (|words| > 1 ==> gaps[1] != [])
          && Separated(gaps[1..], words[1..]))
  }

  /** The whitespace before each word of `str.split()`, and the whitespace after the last one. */
  function WordGaps(s: string): (gaps: seq<string>)
    decreases |s|
  {
    var t := LStrip(s);
    var d := |s| - |t|;
    if t == [] then [s]
    else [s[..d]] + WordGaps(t[SpaceIndex(t)..])
  }

  /** A text of whitespace only has nothing left after `lstrip()`. */
  lemma LStripAllSpace(s: string)
    requires AllSpace(s)
    ensures LStrip(s) == []
  {
    var r := LStrip(s);
    AllSpaceEvery(s);
    if r != [] {
      assert r[0] == s[|s| - |r|];
    }
  }

  /** Whitespace up to index `d` and none at `d`: `lstrip()` drops exactly the first `d` characters. */
  lemma LStripAt(s: string, d: nat)
    requires d <= |s| && AllSpace(s[..d])
    requires d < |s| ==> !IsSpace(s[d])
    ensures |LStrip(s)| == |s| - d
  {
    var r := LStrip(s);
    var e := |s| - |r|;
    AllSpaceEvery(s[..d]);
    AllSpaceEvery(s[..e]);
    if e < d {
      assert r[0] == s[e] == s[..d][e];
    } else if e > d {
      assert s[d] == s[..e][d];
    }
  }

  /** A text with no whitespace before index `k` and whitespace at `k` has its first whitespace at `k`. */
  lemma FirstSpaceAt(t: string, k: nat)
    requires k <= |t| && NoSpaceIn(t[..k])
    requires k < |t| ==> IsSpace(t[k])
    ensures SpaceIndex(t) == k
  {
    var j := SpaceIndex(t);
    if j < k {
      assert t[..k][j] == t[j];
    }
  }

  /** One step of `str.split()` and of its gaps: the whitespace in front, the first word, and the rest. */
  lemma SplitWordsStep(s: string, d: nat, k: nat)
    requires d == |s| - |LStrip(s)| < |s|
    requires k == SpaceIndex(LStrip(s))
    ensures d + k <= |s|
    ensures SplitWords(s) == [s[d..d + k]] + SplitWords(s[d + k..])
    ensures WordGaps(s) == [s[..d]] + WordGaps(s[d + k..])
  {
    var t := LStrip(s);
    assert t[..k] == s[d..d + k];
    assert t[k..] == s[d + k..];
  }

  /** A text of whitespace only has no words and one gap, the text itself. */
  lemma SplitWordsNone(s: string)
    requires AllSpace(s)
    ensures SplitWords(s) == [] && WordGaps(s) == [s]
  {
    LStripAllSpace(s);
  }

  /** The first gap of a text that starts with whitespace is not empty. */
  lemma WordGapsFront(s: string)
    requires s != [] && IsSpace(s[0])
    ensures WordGaps(s)[0] != []
  {
  }

  /** What `lstrip()` drops is a gap, and the run up to the next whitespace is a word. */
  lemma WordFront(s: string, d: nat, k: nat)
    requires d == |s| - |LStrip(s)| < |s|
    requires k == SpaceIndex(LStrip(s))
    ensures d + k <= |s| && AllSpace(s[..d])
    ensures s[d..d + k] != [] && NoSpaceIn(s[d..d + k])
    ensures d + k < |s| ==> IsSpace(s[d + k])
  {
    var t := LStrip(s);
    assert s[d..d + k] == t[..k];
    assert NoSpaceIn(t[..k]) by {
      forall i | 0 <= i < k ensures !IsSpace(t[..k][i]) {
        assert t[..k][i] == t[i];
      }
    }
    if d + k < |s| {
      assert s[d + k] == t[k];
    }
  }

  /** A text cut into a gap, a word and the rest. */
  lemma ConcatThree(s: string, a: string, b: string, c: string)
    requires s == a + b + c
    ensures s[..|a|] == a && s[|a|..|a| + |b|] == b && s[|a| + |b|..] == c && s[|a|..] == b + c
  {
  }

  /** A text is its three slices at `d` and `d + k`. */
  lemma SliceThree(s: string, d: nat, k: nat)
    requires d + k <= |s|
    ensures s == s[..d] + s[d..d + k] + s[d + k..]
  {
    assert s == s[..d] + s[d..];
    assert s[d..] == s[d..d + k] + s[d + k..];
  }

  /** A gap and a word before a separated cut of the rest make a separated cut of the whole text. */
  lemma SeparatedCons(gap: string, word: string, gaps: seq<string>, words: seq<string>)
    requires |gaps| == |words| + 1 && Separated(gaps, words)
    requires AllSpace(gap) && word != [] && NoSpaceIn(word)
    requires words != [] ==> gaps[0] != []
    ensures Separated([gap] + gaps, [word] + words)
  {
    var g, w := [gap] + gaps, [word] + words;
    assert g[0] == gap && w[0] == word;
    assert g[1..] == gaps && w[1..] == words;
  }

  /** `Interleave` of one gap and one word more. */
  lemma InterleaveCons(gap: string, word: string, gaps: seq<string>, words: seq<string>)
    requires |gaps| == |words| + 1
    ensures Interleave([gap] + gaps, [word] + words) == gap + word + Interleave(gaps, words)
  {
    var g, w := [gap] + gaps, [word] + words;
    assert g[1..] == gaps && w[1..] == words;
  }

  /** The separated cut of the text, one gap and word longer than the one of its rest. */
  lemma SplitWordsRunsCons(s: string, gap: string, word: string, rest: string, gaps: seq<string>, words: seq<string>)
    requires s == gap + word + rest
    requires AllSpace(gap) && word != [] && NoSpaceIn(word)
    requires |gaps| == |words| + 1 && Separated(gaps, words) && rest == Interleave(gaps, words)
    requires words != [] ==> gaps[0] != []
    ensures Separated([gap] + gaps, [word] + words) && s == Interleave([gap] + gaps, [word] + words)
  {
    SeparatedCons(gap, word, gaps, words);
    InterleaveCons(gap, word, gaps, words);
  }

  /** A separated cut, written with equal arguments. */
  lemma SeparatedEqual(s: string, gaps: seq<string>, words: seq<string>, gaps': seq<string>, words': seq<string>)
    requires |gaps| == |words| + 1 && Separated(gaps, words) && s == Interleave(gaps, words)
    requires gaps' == gaps && words' == words
    ensures |gaps'| == |words'| + 1 && Separated(gaps', words') && s == Interleave(gaps', words')
  {
  }

  /** The words of `str.split()` are the maximal runs of non-whitespace of the text, in order: with `WordGaps` they
      make up the text, every gap is whitespace and the gaps between words are not empty. */
  lemma {:induction false} SplitWordsRuns(s: string)
    ensures |WordGaps(s)| == |SplitWords(s)| + 1
    ensures Separated(WordGaps(s), SplitWords(s))
    ensures s == Interleave(WordGaps(s), SplitWords(s))
    decreases |s|
  {
    var d := |s| - |LStrip(s)|;
    if d == |s| {
      assert s[..d] == s;
      SplitWordsNone(s);
    } else {
      var k := SpaceIndex(LStrip(s));
      WordFront(s, d, k);
      var gap, word, rest := s[..d], s[d..d + k], s[d + k..];
      SplitWordsRuns(rest);
      var gaps, words := WordGaps(rest), SplitWords(rest);
      if words != [] {
        assert rest != [] && rest[0] == s[d + k];
        WordGapsFront(rest);
      }
      SliceThree(s, d, k);
      SplitWordsRunsCons(s, gap, word, rest, gaps, words);
      SplitWordsStep(s, d, k);
      SeparatedEqual(s, [gap] + gaps, [word] + words, WordGaps(s), SplitWords(s));
    }
  }

  /** A separated cut whose first gap is not empty starts with whitespace. */
  lemma InterleaveFront(gaps: seq<string>, words: seq<string>)
    requires |gaps| == |words| + 1 && Separated(gaps, words)
    requires words != [] ==> gaps[0] != []
    ensures Interleave(gaps, words) == [] || IsSpace(Interleave(gaps, words)[0])
  {
    if gaps[0] != [] {
      assert Interleave(gaps, words)[0] == gaps[0][0];
    }
  }

  /** A gap, a word, and then whitespace or nothing: `str.split()` takes that word first, and the gap first. */
  lemma SplitWordsFront(s: string, gap: string, word: string, rest: string)
    requires s == gap + word + rest
    requires AllSpace(gap) && word != [] && NoSpaceIn(word)
    requires rest == [] || IsSpace(rest[0])
    ensures SplitWords(s) == [word] + SplitWords(rest)
    ensures WordGaps(s) == [gap] + WordGaps(rest)
  {
    var d, k := |gap|, |word|;
    ConcatThree(s, gap, word, rest);
    assert s[d] == word[0];
    LStripAt(s, d);
    var t := LStrip(s);
    assert t == word + rest;
    assert t[..k] == word;
    FirstSpaceAt(t, k);
    SplitWordsStep(s, d, k);
  }

  /** A non-empty sequence is its head before its tail. */
  lemma ConsEqual(xs: seq<string>, tail: seq<string>, whole: seq<string>)
    requires xs != [] && xs[1..] == tail && whole == [xs[0]] + tail
    ensures xs == whole
  {
    assert xs == [xs[0]] + xs[1..];
  }

  /** `str.split()` is the only way to cut the text into maximal runs of non-whitespace: any separated cut of the
      text has the words of `str.split()` and the gaps of `WordGaps`. */
  lemma {:induction false} SplitWordsUnique(s: string, gaps: seq<string>, words: seq<string>)
    requires |gaps| == |words| + 1 && Separated(gaps, words)
    requires s == Interleave(gaps, words)
    ensures words == SplitWords(s) && gaps == WordGaps(s)
    decreases |words|
  {
    if words == [] {
      SplitWordsNone(s);
      assert gaps == [s];
    } else {
      var rest := Interleave(gaps[1..], words[1..]);
      InterleaveFront(gaps[1..], words[1..]);
      SplitWordsFront(s, gaps[0], words[0], rest);
      SplitWordsUnique(rest, gaps[1..], words[1..]);
      ConsEqual(words, SplitWords(rest), SplitWords(s));
      ConsEqual(gaps, WordGaps(rest), WordGaps(s));
    }
  }

  /** The index of the last `c` in `s`, or -1 when there is none. */
  function LastIndex(s: string, c: char): (k: int)
    ensures -1 <= k < |s|
    ensures k >= 0 ==> s[k] == c
    ensures forall j :: k < j < |s| ==> s[j] != c
  {
    if s == [] then -1 else if s[|s| - 1] == c then |s| - 1 else LastIndex(s[..|s| - 1], c)
  }

  /** `s.rsplit(c, 1)[0]`: everything before the last `c`, or all of `s` when it holds none. */
  function RSplitHead(s: string, c: char): (r: string)
    ensures r <= s
    ensures |r| < |s| ==> s[|r|] == c && forall j :: |r| < j < |s| ==> s[j] != c
    ensures |r| == |s| ==> forall j :: 0 <= j < |s| ==> s[j] != c
  {
    var k := LastIndex(s, c);
    if k < 0 then s else s[..k]
  }

  /** `s[:n]`, where a negative `n` counts from the end. */
  function SlicePrefix(s: string, n: int): (r: string)
    ensures r <= s
    ensures 0 <= n ==> |r| == if n <= |s| then n else |s|
  {
    if n >= 0 then (if n <= |s| then s[..n] else s)
    else if |s| + n >= 0 then s[..|s| + n]
    else []
  }
}
