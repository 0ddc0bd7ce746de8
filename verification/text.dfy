/** String helpers shared by the Python views and scripts and the JavaScript pages:
    whitespace and trimming, ASCII case mapping, substring search, splitting and joining. */
module Text {
  import opened Wrappers

  /** Whose notion of whitespace applies: Python's `str.isspace` (used by `strip` and
      argument-less `split`) or JavaScript's `\s` class (used by `trim` and regexes). */
  datatype Flavor = Py | Js

  predicate IsSpace(f: Flavor, c: char)
  {
    || c == ' ' || c == '\t' || c == '\n' || c == '\r' || c == '\U{B}' || c == '\U{C}'
    || c == '\U{A0}' || c == '\U{1680}' || ('\U{2000}' <= c <= '\U{200A}')
    || c == '\U{2028}' || c == '\U{2029}' || c == '\U{202F}' || c == '\U{205F}' || c == '\U{3000}'
    || (f == Py && (('\U{1C}' <= c <= '\U{1F}') || c == '\U{85}'))
    || (f == Js && c == '\U{FEFF}')
  }

  predicate AllSpace(f: Flavor, s: string)
  {
    forall i :: 0 <= i < |s| ==> IsSpace(f, s[i])
  }

  predicate NoSpace(f: Flavor, s: string)
  {
    forall i :: 0 <= i < |s| ==> !IsSpace(f, s[i])
  }

  /** Neither end of `s` is whitespace. */
  predicate IsStripped(f: Flavor, s: string)
  {
    |s| == 0 || (!IsSpace(f, s[0]) && !IsSpace(f, s[|s| - 1]))
  }

  /** Number of whitespace characters at the front of `s`. */
  function LeadingSpace(f: Flavor, s: string): (k: nat)
    ensures k <= |s|
    ensures forall i :: 0 <= i < k ==> IsSpace(f, s[i])
    ensures k < |s| ==> !IsSpace(f, s[k])
    decreases |s|
  {
    if |s| == 0 || !IsSpace(f, s[0]) then 0
    else
      var k := LeadingSpace(f, s[1..]);
      1 + k
  }

  /** Index at which the whitespace run closing `s` begins. */
  function TrailingSpace(f: Flavor, s: string): (k: nat)
    ensures k <= |s|
    ensures forall i :: k <= i < |s| ==> IsSpace(f, s[i])
    ensures 0 < k ==> !IsSpace(f, s[k - 1])
    decreases |s|
  {
    if |s| == 0 || !IsSpace(f, s[|s| - 1]) then |s|
    else
      TrailingSpace(f, s[..|s| - 1])
  }

  /** Python's `str.strip()` and JavaScript's `String.prototype.trim()`: only whitespace is
      removed, only from the two ends, and none is left there. */
  function Strip(f: Flavor, s: string): (r: string)
    ensures |r| <= |s|
    ensures IsStripped(f, r)
    ensures r == [] <==> AllSpace(f, s)
    ensures r != [] ==> var lo := LeadingSpace(f, s);
      lo + |r| <= |s| && r == s[lo..lo + |r|] && AllSpace(f, s[lo + |r|..])
  {
    var lo := LeadingSpace(f, s);
    if lo == |s| then []
    else s[lo..TrailingSpace(f, s)]
  }

  /** A string with no whitespace at either end is its own strip. */
  lemma StripStripped(f: Flavor, s: string)
    requires IsStripped(f, s)
    ensures Strip(f, s) == s
  {

  }

  /** Stripping twice is stripping once. */
  lemma StripIdempotent(f: Flavor, s: string)
    ensures Strip(f, Strip(f, s)) == Strip(f, s)
  {
    StripStripped(f, Strip(f, s));
  }

  /** Python's `len(s) > n and s[:n]`: the first `n` characters, or all of `s`. */
  function Take(s: string, n: nat): (r: string)
    ensures |r| <= n && |r| <= |s|
    ensures r == s[..|r|]
    ensures |s| <= n ==> r == s
    ensures n < |s| ==> |r| == n
  {
    if |s| <= n then s else s[..n]
  }

  function LowerChar(c: char): char
  {
    if 'A' <= c <= 'Z' then (c as int + 32) as char else c
  }

  function UpperChar(c: char): char
  {
    if 'a' <= c <= 'z' then (c as int - 32) as char else c
  }

  /** Lower-casing, restricted to the ASCII letters. */
  function Lower(s: string): (r: string)
    ensures |r| == |s|
    ensures forall i :: 0 <= i < |s| ==> r[i] == LowerChar(s[i])
  {
    seq(|s|, i requires 0 <= i < |s| => LowerChar(s[i]))
  }

  /** Upper-casing, restricted to the ASCII letters. */
  function Upper(s: string): (r: string)
    ensures |r| == |s|
    ensures forall i :: 0 <= i < |s| ==> r[i] == UpperChar(s[i])
  {
    seq(|s|, i requires 0 <= i < |s| => UpperChar(s[i]))
  }

  /** No upper-case ASCII letter occurs in `s`. */
  predicate IsLower(s: string)
  {
    forall i :: 0 <= i < |s| ==> !('A' <= s[i] <= 'Z')
  }

  predicate StartsWith(s: string, prefix: string)
  {
    |prefix| <= |s| && s[..|prefix|] == prefix
  }

  /** `pat` occurs in `s` starting at index `j`. */
  predicate OccursAt(s: string, pat: string, j: int)
  {
    0 <= j && j + |pat| <= |s| && s[j..j + |pat|] == pat
  }

  /** First occurrence of `pat` in `s` at or after index `k`. */
  function IndexFrom(s: string, pat: string, k: nat): (r: Option<nat>)
    requires k <= |s|
    ensures r.Some? ==> k <= r.value && OccursAt(s, pat, r.value)
    ensures r.Some? ==> forall j :: k <= j < r.value ==> !OccursAt(s, pat, j)
    ensures r.None? ==> forall j :: k <= j ==> !OccursAt(s, pat, j)
    decreases |s| - k
  {
    if OccursAt(s, pat, k) then Some(k)
    else if k == |s| then None
    else IndexFrom(s, pat, k + 1)
  }

  /** Python's `str.find` / JavaScript's `indexOf`, with `None` for "not found". */
  function IndexOf(s: string, pat: string): (r: Option<nat>)
    ensures r.Some? ==> OccursAt(s, pat, r.value)
    ensures r.Some? ==> forall j :: 0 <= j < r.value ==> !OccursAt(s, pat, j)
    ensures r.None? ==> forall j :: !OccursAt(s, pat, j)
  {
    IndexFrom(s, pat, 0)
  }

  /** Python's `pat in s` / JavaScript's `s.includes(pat)`. */
  predicate Contains(s: string, pat: string)
  {
    IndexOf(s, pat).Some?
  }

  /** A one-character pattern occurs exactly when the character does. */
  lemma ContainsChar(s: string, c: char)
    ensures Contains(s, [c]) <==> c in s
  {
    if c in s {
      var j :| 0 <= j < |s| && s[j] == c;
      assert OccursAt(s, [c], j);
    }
    if Contains(s, [c]) {
      var j := IndexOf(s, [c]).value;
      assert s[j..j + 1][0] == s[j];
    }
  }

  /** The text after the first `sep`, or `None` when `sep` does not occur:
      Python's `s.split(sep, 1)[1]` where that element exists. */
  function After(s: string, sep: string): (r: Option<string>)
    ensures r.Some? <==> Contains(s, sep)
    ensures r.Some? ==> exists j :: OccursAt(s, sep, j) && r.value == s[j + |sep|..]
    ensures r.Some? ==> var j := |s| - |r.value| - |sep|;
      OccursAt(s, sep, j) && (forall k :: 0 <= k < j ==> !OccursAt(s, sep, k)) && r.value == s[j + |sep|..]
  {
    match IndexOf(s, sep)
    case None => None
    case Some(i) => Some(s[i + |sep|..])
  }

  /** The text before the first `sep`, or all of `s`: Python's `s.split(sep, 1)[0]` and
      JavaScript's `s.split(sep).shift()`. */
  function Before(s: string, sep: string): (r: string)
    ensures |r| <= |s|
    ensures |sep| > 0 ==> !Contains(r, sep)
    ensures r == s[..|r|]
    ensures !Contains(s, sep) ==> r == s
    ensures Contains(s, sep) ==> OccursAt(s, sep, |r|) && forall k :: 0 <= k < |r| ==> !OccursAt(s, sep, k)
  {
    match IndexOf(s, sep)
    case None => s
    case Some(i) =>
      var r := s[..i];
      PrefixBeforeFirst(s, sep, i);
      r
  }

  /** A prefix that ends before the first occurrence of a non-empty `sep` does not contain it. */
  lemma PrefixBeforeFirst(s: string, sep: string, i: nat)
    requires i <= |s|
    requires forall j :: 0 <= j < i ==> !OccursAt(s, sep, j)
    ensures |sep| > 0 ==> !Contains(s[..i], sep)
  {
    var r := s[..i];
    forall j | 0 <= j && j + |sep| <= |r| && |sep| > 0
      ensures !OccursAt(r, sep, j)
    {
      assert r[j..j + |sep|] == s[j..j + |sep|];
      assert !OccursAt(s, sep, j);
    }
  }

  /** Python's `s.split(sep)` and JavaScript's `s.split(sep)` for a non-empty separator: the
      pieces between successive non-overlapping occurrences, scanning left to right. */
  function Split(s: string, sep: string): (parts: seq<string>)
    requires |sep| > 0
    ensures |parts| >= 1
    decreases |s|
  {
    match IndexOf(s, sep)
    case None => [s]
    case Some(i) => [s[..i]] + Split(s[i + |sep|..], sep)
  }

  /** Python's `sep.join(parts)` and JavaScript's `parts.join(sep)`. */
  function Join(sep: string, parts: seq<string>): string
  {
    if |parts| == 0 then ""
    else if |parts| == 1 then parts[0]
    else parts[0] + sep + Join(sep, parts[1..])
  }

  /** Joining a non-empty list after a first element puts one separator between them. */
  lemma JoinCons(sep: string, first: string, rest: seq<string>)
    requires |rest| > 0
    ensures Join(sep, [first] + rest) == first + sep + Join(sep, rest)
  {
    assert ([first] + rest)[1..] == rest;
  }

  /** Joining the pieces of a split with the same separator gives the string back. */
  lemma {:induction false} JoinSplit(s: string, sep: string)
    requires |sep| > 0
    ensures Join(sep, Split(s, sep)) == s
    decreases |s|
  {
    var idx := IndexOf(s, sep);
    if idx.Some? {
      var i := idx.value;
      var rest := s[i + |sep|..];
      JoinSplit(rest, sep);
      SplitAt(s, sep, i);
      JoinCons(sep, s[..i], Split(rest, sep));
      assert s[i..i + |sep|] == sep;
      assert s == s[..i] + s[i..i + |sep|] + rest;
    }
  }

  /** One step of `Split` when the first separator is at `i`. */
  lemma SplitAt(s: string, sep: string, i: nat)
    requires |sep| > 0 && IndexOf(s, sep) == Some(i)
    ensures Split(s, sep) == [s[..i]] + Split(s[i + |sep|..], sep)
  {
  }

  /** Splitting a join on a one-character separator that none of the parts contains gives
      the parts back. */
  lemma {:induction false} SplitJoin(parts: seq<string>, c: char)
    requires |parts| >= 1
    requires forall k :: 0 <= k < |parts| ==> c !in parts[k]
    ensures Split(Join([c], parts), [c]) == parts
    decreases |parts|
  {
    var p := parts[0];
    ContainsChar(p, c);
    if |parts| == 1 {
    } else {
      var tail := Join([c], parts[1..]);
      var s := p + [c] + tail;
      assert Join([c], parts) == s;
      assert OccursAt(s, [c], |p|) by { assert s[|p|..|p| + 1] == [c]; }
      forall j | 0 <= j < |p|
        ensures !OccursAt(s, [c], j)
      {
        assert s[j] == p[j];
      }
      assert IndexOf(s, [c]) == Some(|p|);
      assert s[..|p|] == p;
      assert s[|p| + 1..] == tail;
      SplitJoin(parts[1..], c);
      assert parts == [p] + parts[1..];
    }
  }

  /** Number of non-whitespace characters at the front of `s`. */
  function WordLength(f: Flavor, s: string): (k: nat)
    ensures k <= |s|
    ensures NoSpace(f, s[..k])
    ensures k < |s| ==> IsSpace(f, s[k])
    decreases |s|
  {
    if |s| == 0 || IsSpace(f, s[0]) then 0
    else
      var k := WordLength(f, s[1..]);
      assert s[..1 + k] == [s[0]] + s[1..][..k];
      1 + k
  }

  /** Python's argument-less `str.split()`: the maximal runs of non-whitespace characters,
      left to right. */
  function Words(f: Flavor, s: string): (ws: seq<string>)
    ensures forall k :: 0 <= k < |ws| ==> |ws[k]| > 0 && NoSpace(f, ws[k])
    decreases |s|
  {
    var lo := LeadingSpace(f, s);
    if lo == |s| then []
    else
      var t := s[lo..];
      var n := WordLength(f, t);
      [t[..n]] + Words(f, t[n..])
  }

  /** Whitespace in `s` is only single plain spaces between non-whitespace characters. */
  predicate IsCollapsed(f: Flavor, s: string)
  {
    && IsStripped(f, s)
    && (forall i :: 0 <= i < |s| && IsSpace(f, s[i]) ==> s[i] == ' ')
    && (forall i :: 0 <= i < |s| - 1 && IsSpace(f, s[i]) ==> !IsSpace(f, s[i + 1]))
  }

  /** Joining non-empty whitespace-free words with single spaces gives a collapsed string. */
  lemma {:induction false} JoinWordsCollapsed(f: Flavor, ws: seq<string>)
    requires forall k :: 0 <= k < |ws| ==> |ws[k]| > 0 && NoSpace(f, ws[k])
    ensures IsCollapsed(f, Join(" ", ws))
    ensures |ws| > 0 ==> |Join(" ", ws)| > 0 && Join(" ", ws)[0] == ws[0][0]
    decreases |ws|
  {
    if |ws| > 1 {
      JoinWordsCollapsed(f, ws[1..]);
      var w := ws[0];
      var t := Join(" ", ws[1..]);
      var s := w + " " + t;
      assert Join(" ", ws) == s;
      forall i | 0 <= i < |s|
        ensures IsSpace(f, s[i]) ==> s[i] == ' '
        ensures IsSpace(f, s[i]) && i < |s| - 1 ==> !IsSpace(f, s[i + 1])
      {
        if i < |w| {
          assert s[i] == w[i];
        } else if i > |w| {
          assert s[i] == t[i - |w| - 1];
          if i < |s| - 1 {
            assert s[i + 1] == t[i - |w|];
          }
        } else {
          assert s[i + 1] == t[0];
        }
      }
      assert s[|s| - 1] == t[|t| - 1];
    }
  }

  /** Python's `" ".join(s.split())`: every whitespace run becomes one space and both ends
      are trimmed. */
  function Collapse(f: Flavor, s: string): (r: string)
    ensures IsCollapsed(f, r)
    ensures r == [] <==> AllSpace(f, s)
  {
    var ws := Words(f, s);
    JoinWordsCollapsed(f, ws);
    WordsEmpty(f, s);
    Join(" ", ws)
  }

  /** A string has no words exactly when it is all whitespace. */
  lemma WordsEmpty(f: Flavor, s: string)
    ensures Words(f, s) == [] <==> AllSpace(f, s)
  {
    var lo := LeadingSpace(f, s);
    if lo == |s| {
      assert s[..lo] == s;
    }
  }

  /** A whitespace-free word followed by whitespace (or nothing) is exactly one word long. */
  lemma {:induction false} WordLengthOfWord(f: Flavor, w: string, rest: string)
    requires NoSpace(f, w)
    requires |rest| > 0 ==> IsSpace(f, rest[0])
    ensures WordLength(f, w + rest) == |w|
    decreases |w|
  {
    if |w| > 0 {
      var s := w + rest;
      assert s[0] == w[0];
      assert s[1..] == w[1..] + rest;
      assert NoSpace(f, w[1..]);
      WordLengthOfWord(f, w[1..], rest);
    } else {
      assert w + rest == rest;
    }
  }

  /** `Words` only looks at the text after the leading whitespace. */
  lemma WordsSkip(f: Flavor, s: string)
    ensures Words(f, s) == Words(f, s[LeadingSpace(f, s)..])
  {
    var u := s[LeadingSpace(f, s)..];
    assert LeadingSpace(f, u) == 0;
    assert u[0..] == u;
  }

  /** A whitespace character in front adds one to the leading run. */
  lemma LeadingSpaceCons(f: Flavor, c: char, t: string)
    requires IsSpace(f, c)
    ensures LeadingSpace(f, [c] + t) == 1 + LeadingSpace(f, t)
  {
    assert ([c] + t)[1..] == t;
  }

  /** Leading whitespace does not change the words. */
  lemma WordsAfterSpace(f: Flavor, c: char, t: string)
    requires IsSpace(f, c)
    ensures Words(f, [c] + t) == Words(f, t)
  {
    LeadingSpaceCons(f, c, t);
    DropCons(c, t, LeadingSpace(f, t));
    WordsSame(f, [c] + t, t);
  }

  /** Two texts that agree after their leading whitespace have the same words. */
  lemma WordsSame(f: Flavor, s: string, t: string)
    requires s[LeadingSpace(f, s)..] == t[LeadingSpace(f, t)..]
    ensures Words(f, s) == Words(f, t)
  {
    WordsSkip(f, s);
    WordsSkip(f, t);
  }

  lemma DropCons(c: char, t: string, k: nat)
    requires k <= |t|
    ensures ([c] + t)[1 + k..] == t[k..]
  {
  }

  /** A whitespace-free word followed by whitespace (or nothing) is the first word. */
  lemma WordsAfterWord(f: Flavor, w: string, rest: string)
    requires |w| > 0 && NoSpace(f, w)
    requires |rest| > 0 ==> IsSpace(f, rest[0])
    ensures Words(f, w + rest) == [w] + Words(f, rest)
  {
    var s := w + rest;
    assert s[0] == w[0];
    assert LeadingSpace(f, s) == 0;
    assert s[0..] == s;
    WordLengthOfWord(f, w, rest);
    assert s[..|w|] == w;
    assert s[|w|..] == rest;
  }

  /** A word joined in front of a non-empty list is split off again as the first word. */
  lemma WordsOfJoinCons(f: Flavor, w: string, ws: seq<string>)
    requires |w| > 0 && NoSpace(f, w) && |ws| > 0
    ensures Words(f, Join(" ", [w] + ws)) == [w] + Words(f, Join(" ", ws))
  {
    var t := Join(" ", ws);
    JoinCons(" ", w, ws);
    assert w + " " + t == w + (" " + t);
    WordsAfterWord(f, w, " " + t);
    WordsAfterSpace(f, ' ', t);
  }

  /** Splitting a space-join of words gives the words back. */
  lemma {:induction false} WordsOfJoin(f: Flavor, ws: seq<string>)
    requires forall k :: 0 <= k < |ws| ==> |ws[k]| > 0 && NoSpace(f, ws[k])
    ensures Words(f, Join(" ", ws)) == ws
    decreases |ws|
  {
    if |ws| == 1 {
      WordsAfterWord(f, ws[0], "");
      assert ws[0] + "" == ws[0];
      assert Words(f, "") == [];
    } else if |ws| > 1 {
      assert ws == [ws[0]] + ws[1..];
      WordsOfJoinCons(f, ws[0], ws[1..]);
      WordsOfJoin(f, ws[1..]);
    }
  }

  /** Collapsing twice is collapsing once. */
  lemma CollapseIdempotent(f: Flavor, s: string)
    ensures Collapse(f, Collapse(f, s)) == Collapse(f, s)
  {
    WordsOfJoin(f, Words(f, s));
  }

  /** Every string of a list lower-cased. */
  function LowerAll(ws: seq<string>): (r: seq<string>)
    ensures |r| == |ws| && forall k :: 0 <= k < |ws| ==> r[k] == Lower(ws[k])
  {
    seq(|ws|, k requires 0 <= k < |ws| => Lower(ws[k]))
  }

  /** Lower-casing never turns a character into whitespace or whitespace into anything else. */
  lemma LowerKeepsSpace(f: Flavor, s: string)
    ensures forall i :: 0 <= i < |s| ==> (IsSpace(f, Lower(s)[i]) <==> IsSpace(f, s[i]))
    ensures NoSpace(f, s) ==> NoSpace(f, Lower(s))
  {
  }

  /** Lower-casing is idempotent and leaves no upper-case letter behind. */
  lemma LowerIdempotent(s: string)
    ensures IsLower(Lower(s)) && Lower(Lower(s)) == Lower(s)
  {
  }

  /** A string without upper-case letters is its own lower-case form. */
  lemma LowerOfLower(s: string)
    requires IsLower(s)
    ensures Lower(s) == s
  {
  }

  lemma LowerConcat(a: string, b: string)
    ensures Lower(a + b) == Lower(a) + Lower(b)
  {
  }

  /** Lower-casing a join is joining the lower-cased parts. */
  lemma {:induction false} LowerJoin(sep: string, ws: seq<string>)
    requires IsLower(sep)
    ensures Lower(Join(sep, ws)) == Join(sep, LowerAll(ws))
    decreases |ws|
  {
    if |ws| == 1 {
      assert LowerAll(ws) == [Lower(ws[0])];
    } else if |ws| > 1 {
      var rest := Join(sep, ws[1..]);
      LowerJoin(sep, ws[1..]);
      LowerConcat(ws[0] + sep, rest);
      LowerConcat(ws[0], sep);
      LowerOfLower(sep);
      assert LowerAll(ws)[1..] == LowerAll(ws[1..]);
    }
  }

  /** Lower-cased non-empty whitespace-free words are still non-empty and whitespace-free. */
  lemma LowerAllWords(f: Flavor, ws: seq<string>)
    requires forall k :: 0 <= k < |ws| ==> |ws[k]| > 0 && NoSpace(f, ws[k])
    ensures forall k :: 0 <= k < |ws| ==> |LowerAll(ws)[k]| > 0 && NoSpace(f, LowerAll(ws)[k])
  {
    forall k | 0 <= k < |ws|
      ensures NoSpace(f, LowerAll(ws)[k])
    {
      LowerKeepsSpace(f, ws[k]);
    }
  }

  /** Lower-casing a collapsed string leaves it collapsed: collapsing it again changes
      nothing. */
  lemma CollapseOfLowerCollapse(f: Flavor, s: string)
    ensures Collapse(f, Lower(Collapse(f, s))) == Lower(Collapse(f, s))
  {
    var ws := Words(f, s);
    LowerJoin(" ", ws);
    LowerAllWords(f, ws);
    WordsOfJoin(f, LowerAll(ws));
  }

  /** No piece of a split on one character contains that character. */
  lemma {:induction false} SplitPartsFree(s: string, c: char)
    ensures forall k :: 0 <= k < |Split(s, [c])| ==> c !in Split(s, [c])[k]
    decreases |s|
  {
    match IndexOf(s, [c])
    case None =>
      ContainsChar(s, c);
    case Some(i) =>
      PrefixBeforeFirst(s, [c], i);
      ContainsChar(s[..i], c);
      SplitPartsFree(s[i + 1..], c);
  }

  /** Python's `[x for x in parts if x]` on strings: the non-empty ones, in order. */
  function NonEmpty(parts: seq<string>): (r: seq<string>)
    ensures forall k :: 0 <= k < |r| ==> r[k] != "" && r[k] in parts
    ensures forall x :: x in parts && x != "" ==> x in r
    ensures (forall k :: 0 <= k < |parts| ==> parts[k] != "") ==> r == parts
    ensures |r| <= |parts|
  {
    if |parts| == 0 then []
    else
      var rest := NonEmpty(parts[1..]);
      assert parts == [parts[0]] + parts[1..];
      if parts[0] == "" then rest else [parts[0]] + rest
  }

  lemma LowerSlice(s: string, lo: nat, hi: nat)
    requires lo <= hi <= |s|
    ensures Lower(s)[lo..hi] == Lower(s[lo..hi])
  {
  }

  lemma LeadingSpaceLower(f: Flavor, s: string)
    ensures LeadingSpace(f, Lower(s)) == LeadingSpace(f, s)
  {
    LowerKeepsSpace(f, s);
  }

  lemma WordLengthLower(f: Flavor, s: string)
    ensures WordLength(f, Lower(s)) == WordLength(f, s)
  {
    LowerKeepsSpace(f, s);
    var a := WordLength(f, Lower(s));
    var b := WordLength(f, s);
  }

  lemma LowerAllCons(w: string, ws: seq<string>)
    ensures LowerAll([w] + ws) == [Lower(w)] + LowerAll(ws)
  {
  }

  /** One step of `Words` on a text with a word after `lo` leading whitespace. */
  lemma WordsStep(f: Flavor, s: string, lo: nat, n: nat)
    requires lo == LeadingSpace(f, s) && lo < |s| && n == WordLength(f, s[lo..])
    ensures Words(f, s) == [s[lo..][..n]] + Words(f, s[lo..][n..])
  {
  }

  /** Lower-casing commutes with taking the word `[lo, lo + n)` and what follows it. */
  lemma LowerWordSlices(s: string, lo: nat, n: nat)
    requires lo + n <= |s|
    ensures Lower(s)[lo..][..n] == Lower(s[lo..][..n])
    ensures Lower(s)[lo..][n..] == Lower(s[lo..][n..])
  {
    assert Lower(s)[lo..][..n] == Lower(s)[lo..lo + n];
    assert s[lo..][..n] == s[lo..lo + n];
    assert Lower(s)[lo..][n..] == Lower(s)[lo + n..|s|];
    assert s[lo..][n..] == s[lo + n..|s|];
    LowerSlice(s, lo, lo + n);
    LowerSlice(s, lo + n, |s|);
  }

  /** The first word of the lower-cased text starts and ends where the original's does. */
  lemma LowerWordBounds(f: Flavor, s: string)
    requires LeadingSpace(f, s) < |s|
    ensures LeadingSpace(f, Lower(s)) == LeadingSpace(f, s)
    ensures WordLength(f, Lower(s)[LeadingSpace(f, s)..]) == WordLength(f, s[LeadingSpace(f, s)..])
    ensures WordLength(f, s[LeadingSpace(f, s)..]) > 0
  {
    var lo := LeadingSpace(f, s);
    LeadingSpaceLower(f, s);
    LowerSlice(s, lo, |s|);
    assert Lower(s)[lo..] == Lower(s[lo..]) by { assert Lower(s)[lo..] == Lower(s)[lo..|s|]; assert s[lo..] == s[lo..|s|]; }
    WordLengthLower(f, s[lo..]);
    assert !IsSpace(f, s[lo..][0]);
  }

  /** The first word of a text and of its lower-cased form sit at the same place, so both
      texts split into a first word and the same remainder, lower-cased. */
  lemma WordsLowerStep(f: Flavor, s: string)
    requires LeadingSpace(f, s) < |s|
    ensures var t := s[LeadingSpace(f, s)..]; var n := WordLength(f, t);
      && |t[n..]| < |s|
      && Words(f, s) == [t[..n]] + Words(f, t[n..])
      && Words(f, Lower(s)) == [Lower(t[..n])] + Words(f, Lower(t[n..]))
  {
    var lo := LeadingSpace(f, s);
    var n := WordLength(f, s[lo..]);
    LowerWordBounds(f, s);
    LowerWordSlices(s, lo, n);
    WordsStep(f, s, lo, n);
    WordsStep(f, Lower(s), lo, n);
  }

  /** Lower-casing does not move word boundaries: the words of the lower-cased text are the
      lower-cased words. */
  lemma {:induction false} WordsLower(f: Flavor, s: string)
    ensures Words(f, Lower(s)) == LowerAll(Words(f, s))
    decreases |s|
  {
    var lo := LeadingSpace(f, s);
    LeadingSpaceLower(f, s);
    if lo < |s| {
      var t := s[lo..];
      var n := WordLength(f, t);
      WordsLowerStep(f, s);
      WordsLower(f, t[n..]);
      LowerAllCons(t[..n], Words(f, t[n..]));
    } else {
      assert Words(f, s) == [];
      assert Words(f, Lower(s)) == [];
    }
  }

  /** Every character of a join comes from a part or from the separator, so a property all
      of those characters share holds throughout. */
  lemma {:induction false} JoinKeeps(sep: string, ws: seq<string>, p: char -> bool)
    requires forall i :: 0 <= i < |sep| ==> p(sep[i])
    requires forall k, i :: 0 <= k < |ws| && 0 <= i < |ws[k]| ==> p(ws[k][i])
    ensures forall i :: 0 <= i < |Join(sep, ws)| ==> p(Join(sep, ws)[i])
    decreases |ws|
  {
    if |ws| > 1 {
      JoinKeeps(sep, ws[1..], p);
      var a := ws[0];
      var b := Join(sep, ws[1..]);
      var j := a + sep + b;
      forall i | 0 <= i < |j|
        ensures p(j[i])
      {
        if i < |a| {
          assert j[i] == a[i];
        } else if i < |a| + |sep| {
          assert j[i] == sep[i - |a|];
        } else {
          assert j[i] == b[i - |a| - |sep|];
        }
      }
    } else if |ws| == 1 {
      assert forall i :: 0 <= i < |ws[0]| ==> p(ws[0][i]);
    }
  }

  /** `p` holds for every character of `s`. */
  predicate AllChars(s: string, p: char -> bool)
  {
    forall i :: 0 <= i < |s| ==> p(s[i])
  }

  lemma AllCharsSlice(s: string, lo: nat, hi: nat, p: char -> bool)
    requires lo <= hi <= |s| && AllChars(s, p)
    ensures AllChars(s[lo..hi], p)
  {
    assert forall i :: 0 <= i < hi - lo ==> s[lo..hi][i] == s[lo + i];
  }

  lemma AllCharsCons(w: string, ws: seq<string>, p: char -> bool)
    requires AllChars(w, p) && forall k :: 0 <= k < |ws| ==> AllChars(ws[k], p)
    ensures forall k :: 0 <= k < |[w] + ws| ==> AllChars(([w] + ws)[k], p)
  {
    forall k | 0 <= k < |[w] + ws|
      ensures AllChars(([w] + ws)[k], p)
    {
      if k > 0 {
        assert ([w] + ws)[k] == ws[k - 1];
      }
    }
  }

  /** Every word is a piece of the text, so a property all its characters share holds for
      every character of every word. */
  lemma {:induction false} WordsKeep(f: Flavor, s: string, p: char -> bool)
    requires AllChars(s, p)
    ensures forall k :: 0 <= k < |Words(f, s)| ==> AllChars(Words(f, s)[k], p)
    decreases |s|
  {
    var lo := LeadingSpace(f, s);
    if lo < |s| {
      var t := s[lo..];
      var n := WordLength(f, t);
      AllCharsSlice(s, lo, |s|, p);
      assert t == s[lo..|s|];
      AllCharsSlice(t, 0, n, p);
      AllCharsSlice(t, n, |t|, p);
      assert t[..n] == t[0..n];
      assert t[n..] == t[n..|t|];
      WordsStep(f, s, lo, n);
      WordsKeep(f, t[n..], p);
      AllCharsCons(t[..n], Words(f, t[n..]), p);
    } else {
      assert Words(f, s) == [];
    }
  }
}
