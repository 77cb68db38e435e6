/**
 * Python string operations the harvesters rely on, stated over `seq<char>`:
 * `str.strip`, `str.split()` with `' '.join`, `str.replace`, `startswith`/`endswith`,
 * and the zero-padded decimal numbers that `strftime` and f-strings produce.
 */
module Strings {

  /** U+00A0 NO-BREAK SPACE. */
  const NBSP: char := '\U{00A0}'

  /** The characters for which Python's `str.isspace()` holds; `strip()` and `split()` use this set. */
  predicate IsSpace(c: char)
  {
    c == ' ' || ('\t' <= c <= '\r') || ('\U{001C}' <= c <= '\U{001F}') || c == '\U{0085}' || c == NBSP
    || c == '\U{1680}' || ('\U{2000}' <= c <= '\U{200A}') || c == '\U{2028}' || c == '\U{2029}'
    || c == '\U{202F}' || c == '\U{205F}' || c == '\U{3000}'
  }

  predicate NoSpaceIn(s: string)
  {
    forall i :: 0 <= i < |s| ==> !IsSpace(s[i])
  }

  /** Neither end of `s` is whitespace: what `strip()` leaves behind. */
  predicate IsStripped(s: string)
  {
    s == [] || (!IsSpace(s[0]) && !IsSpace(s[|s| - 1]))
  }

  // ---------------------------------------------------------------- strip

  function LStrip(s: string): (r: string)
    ensures |r| <= |s| && r == s[|s| - |r|..]
    ensures r == [] || !IsSpace(r[0])
    ensures forall i :: 0 <= i < |s| - |r| ==> IsSpace(s[i])
  {
    if s != [] && IsSpace(s[0]) then LStrip(s[1..]) else s
  }

  function RStrip(s: string): (r: string)
    ensures |r| <= |s| && r == s[..|r|]
    ensures r == [] || !IsSpace(r[|r| - 1])
    ensures forall i :: |r| <= i < |s| ==> IsSpace(s[i])
  {
    if s != [] && IsSpace(s[|s| - 1]) then RStrip(s[..|s| - 1]) else s
  }

  /** Python's `s.strip()`: `s` without its leading and trailing whitespace. */
  function Strip(s: string): string
  {
    RStrip(LStrip(s))
  }

  /** What `strip()` leaves has no whitespace at either end. */
  lemma StripIsStripped(s: string)
    ensures IsStripped(Strip(s))
  {
    var l := LStrip(s);
    var r := RStrip(l);
    if r != [] {
      assert r[0] == l[0];
    }
  }

  lemma {:induction false} LStripOfStripped(s: string)
    requires s == [] || !IsSpace(s[0])
    ensures LStrip(s) == s
  {
  }

  lemma {:induction false} RStripOfStripped(s: string)
    requires s == [] || !IsSpace(s[|s| - 1])
    ensures RStrip(s) == s
  {
  }

  /** Text without surrounding whitespace is its own `strip()`. */
  lemma StripOfStripped(s: string)
    requires IsStripped(s)
    ensures Strip(s) == s
  {
    LStripOfStripped(s);
    RStripOfStripped(s);
  }

  /** `strip()` is idempotent. */
  lemma StripIdempotent(s: string)
    ensures Strip(Strip(s)) == Strip(s)
  {
    StripIsStripped(s);
    StripOfStripped(Strip(s));
  }

  /** Leading whitespace does not change `strip()`. */
  lemma {:induction false} StripLeadingSpace(c: char, s: string)
    requires IsSpace(c)
    ensures LStrip([c] + s) == LStrip(s)
  {
    assert ([c] + s)[1..] == s;
  }

  // ---------------------------------------------------------------- prefixes and suffixes

  predicate StartsWith(s: string, p: string)
  {
    |p| <= |s| && s[..|p|] == p
  }

  predicate EndsWith(s: string, p: string)
  {
    |p| <= |s| && s[|s| - |p|..] == p
  }

  /** `pat` occurs somewhere in `s`. */
  predicate Occurs(pat: string, s: string)
  {
    exists i :: 0 <= i <= |s| - |pat| && OccursAt(pat, s, i)
  }

  /** `pat` occurs in `s` starting at index `i`. */
  predicate OccursAt(pat: string, s: string, i: int)
  {
    0 <= i <= |s| - |pat| && s[i..i + |pat|] == pat
  }

  // ---------------------------------------------------------------- join, split

  /** Python's `sep.join(parts)`. */
  function Join(parts: seq<string>, sep: string): (r: string)
    ensures parts == [] ==> r == []
    ensures |parts| == 1 ==> r == parts[0]
  {
    if parts == [] then []
    else if |parts| == 1 then parts[0]
    else parts[0] + sep + Join(parts[1..], sep)
  }

  /** A join of at least one non-empty part is non-empty, whatever the separator. */
  lemma {:induction false} JoinNonEmpty(parts: seq<string>, sep: string)
    requires parts != [] && parts[0] != []
    ensures Join(parts, sep) != [] && Join(parts, sep)[0] == parts[0][0]
  {
  }

  /** A join is empty exactly when every part is empty and no separator was written. */
  lemma {:induction false} JoinEmptyIff(parts: seq<string>, sep: string)
    requires forall i :: 0 <= i < |parts| ==> parts[i] != []
    ensures Join(parts, sep) == [] <==> parts == []
  {
    if parts != [] {
      JoinNonEmpty(parts, sep);
    }
  }

  /** Joining stripped, non-empty parts with single spaces gives stripped text. */
  lemma {:induction false} JoinStripped(parts: seq<string>)
    requires forall i :: 0 <= i < |parts| ==> parts[i] != [] && IsStripped(parts[i])
    ensures IsStripped(Join(parts, " "))
    ensures Join(parts, " ") == [] <==> parts == []
  {
    JoinEmptyIff(parts, " ");
    if |parts| > 1 {
      assert forall i :: 0 <= i < |parts| - 1 ==> parts[1..][i] == parts[i + 1];
      JoinStripped(parts[1..]);
      var rest := Join(parts[1..], " ");
      JoinNonEmpty(parts[1..], " ");
      assert Join(parts, " ") == parts[0] + " " + rest;
    }
  }

  /** The longest prefix of `s` without whitespace. */
  function WordPrefix(s: string): (w: string)
    ensures |w| <= |s| && w == s[..|w|]
    ensures NoSpaceIn(w)
    ensures |w| < |s| ==> IsSpace(s[|w|])
  {
    if s == [] || IsSpace(s[0]) then [] else [s[0]] + WordPrefix(s[1..])
  }

  /** Python's `s.split()` with no argument: the maximal runs of non-whitespace, in order. */
  function Words(s: string): (ws: seq<string>)
    ensures forall i :: 0 <= i < |ws| ==> ws[i] != [] && NoSpaceIn(ws[i])
    decreases |s|
  {
    var t := LStrip(s);
    if t == [] then []
    else
      var w := WordPrefix(t);
      assert w != [];
      var rest := Words(t[|w|..]);
      ConsWord(w, rest);
      [w] + rest
  }

  lemma ConsWord(w: string, ws: seq<string>)
    requires w != [] && NoSpaceIn(w)
    requires forall i :: 0 <= i < |ws| ==> ws[i] != [] && NoSpaceIn(ws[i])
    ensures forall i :: 0 <= i < |[w] + ws| ==> ([w] + ws)[i] != [] && NoSpaceIn(([w] + ws)[i])
  {
  }

  /** Python's `' '.join(s.split())`: whitespace runs collapsed to one space, ends trimmed. */
  function Collapse(s: string): string
  {
    Join(Words(s), " ")
  }

  /** Every whitespace character is a lone `' '` strictly between two non-whitespace characters. */
  predicate IsCollapsed(s: string)
  {
    forall i :: 0 <= i < |s| && IsSpace(s[i]) ==>
      s[i] == ' ' && 0 < i < |s| - 1 && !IsSpace(s[i - 1]) && !IsSpace(s[i + 1])
  }

  lemma {:induction false} JoinWordsCollapsed(ws: seq<string>)
    requires forall i :: 0 <= i < |ws| ==> ws[i] != [] && NoSpaceIn(ws[i])
    ensures IsCollapsed(Join(ws, " "))
  {
    if |ws| > 1 {
      assert forall i :: 0 <= i < |ws| - 1 ==> ws[1..][i] == ws[i + 1];
      JoinWordsCollapsed(ws[1..]);
      var w, rest := ws[0], Join(ws[1..], " ");
      JoinNonEmpty(ws[1..], " ");
      var s := w + " " + rest;
      assert Join(ws, " ") == s;
      forall i | 0 <= i < |s| && IsSpace(s[i])
        ensures s[i] == ' ' && 0 < i < |s| - 1 && !IsSpace(s[i - 1]) && !IsSpace(s[i + 1])
      {
        if i > |w| {
          assert s[i] == rest[i - |w| - 1];
          assert s[i - 1] == rest[i - |w| - 2];
          assert s[i + 1] == rest[i - |w|];
        } else {
          assert i == |w|;
          assert s[i + 1] == rest[0];
        }
      }
    }
  }

  /** The collapsed text has no leading, trailing or repeated whitespace, and none but `' '`. */
  lemma CollapseIsCollapsed(s: string)
    ensures IsCollapsed(Collapse(s))
  {
    JoinWordsCollapsed(Words(s));
  }

  /** Collapsing leaves nothing exactly when the text is all whitespace. */
  lemma CollapseEmptyIff(s: string)
    ensures Collapse(s) == [] <==> (forall i :: 0 <= i < |s| ==> IsSpace(s[i]))
  {
    var ws := Words(s);
    JoinEmptyIff(ws, " ");
    var t := LStrip(s);
    if t != [] {
      assert !IsSpace(s[|s| - |t|]);
    }
  }

  lemma {:induction false} WordPrefixOf(w: string, rest: string)
    requires NoSpaceIn(w)
    requires rest == [] || IsSpace(rest[0])
    ensures WordPrefix(w + rest) == w
  {
    if w != [] {
      assert (w + rest)[1..] == w[1..] + rest;
      WordPrefixOf(w[1..], rest);
    } else {
      assert w + rest == rest;
    }
  }

  /** Splitting a word followed by a space and more text yields that word first. */
  lemma {:induction false} WordsCons(w: string, rest: string)
    requires w != [] && NoSpaceIn(w)
    ensures Words(w + " " + rest) == [w] + Words(rest)
  {
    var s := w + " " + rest;
    LStripOfStripped(s);
    assert s == w + (" " + rest);
    WordPrefixOf(w, " " + rest);
    assert s[|w|..] == " " + rest;
    StripLeadingSpace(' ', rest);
  }

  lemma {:induction false} WordsOfJoin(ws: seq<string>)
    requires forall i :: 0 <= i < |ws| ==> ws[i] != [] && NoSpaceIn(ws[i])
    ensures Words(Join(ws, " ")) == ws
  {
    if |ws| == 1 {
      WordsOfWord(ws[0]);
    } else if |ws| > 1 {
      var rest := ws[1..];
      assert forall i :: 0 <= i < |rest| ==> rest[i] == ws[i + 1];
      WordsOfJoin(rest);
      WordsCons(ws[0], Join(rest, " "));
      HeadAndTail(ws);
    }
  }

  lemma HeadAndTail(ws: seq<string>)
    requires ws != []
    ensures [ws[0]] + ws[1..] == ws
  {
  }

  /** A single word splits into itself. */
  lemma WordsOfWord(w: string)
    requires w != [] && NoSpaceIn(w)
    ensures Words(w) == [w]
  {
    LStripOfStripped(w);
    WordPrefixOf(w, []);
    assert w + [] == w;
    assert w[|w|..] == [];
  }

  /** Collapsing keeps the words of the text, so collapsing twice changes nothing. */
  lemma CollapseIdempotent(s: string)
    ensures Words(Collapse(s)) == Words(s)
    ensures Collapse(Collapse(s)) == Collapse(s)
  {
    WordsOfJoin(Words(s));
  }

  // ---------------------------------------------------------------- replace

  /** Python's `s.replace(pat, rep)` for a non-empty `pat`: left to right, non-overlapping. */
  function Replace(s: string, pat: string, rep: string): string
    requires pat != []
    decreases |s|
  {
    if |s| < |pat| then s
    else if s[..|pat|] == pat then rep + Replace(s[|pat|..], pat, rep)
    else [s[0]] + Replace(s[1..], pat, rep)
  }

  lemma {:induction false} RemoveNeverGrows(s: string, pat: string)
    requires pat != []
    ensures |Replace(s, pat, "")| <= |s|
    decreases |s|
  {
    if |s| >= |pat| {
      if s[..|pat|] == pat {
        RemoveNeverGrows(s[|pat|..], pat);
      } else {
        RemoveNeverGrows(s[1..], pat);
      }
    }
  }

  lemma {:induction false} RemoveShrinksOnOccurrence(s: string, pat: string, i: nat)
    requires pat != [] && i <= |s| - |pat| && s[i..i + |pat|] == pat
    ensures |Replace(s, pat, "")| <= |s| - |pat|
    decreases |s|
  {
    if s[..|pat|] == pat {
      RemoveNeverGrows(s[|pat|..], pat);
    } else {
      assert i > 0;
      assert s[1..][i - 1..i - 1 + |pat|] == s[i..i + |pat|];
      RemoveShrinksOnOccurrence(s[1..], pat, i - 1);
    }
  }

  lemma {:induction false} ReplaceAbsent(s: string, pat: string, rep: string)
    requires pat != [] && !Occurs(pat, s)
    ensures Replace(s, pat, rep) == s
    decreases |s|
  {
    if |s| >= |pat| {
      assert !OccursAt(pat, s, 0);
      assert s[0..|pat|] == s[..|pat|];
      forall i | OccursAt(pat, s[1..], i)
        ensures false
      {
        assert s[i + 1..i + 1 + |pat|] == s[1..][i..i + |pat|];
        assert OccursAt(pat, s, i + 1);
      }
      ReplaceAbsent(s[1..], pat, rep);
    }
  }

  /** Removing every occurrence of `pat` changes the text exactly when `pat` occurs in it. */
  lemma RemoveChangesIff(s: string, pat: string)
    requires pat != []
    ensures Replace(s, pat, "") == s <==> !Occurs(pat, s)
  {
    if Occurs(pat, s) {
      var i :| 0 <= i <= |s| - |pat| && OccursAt(pat, s, i);
      RemoveShrinksOnOccurrence(s, pat, i);
    } else {
      ReplaceAbsent(s, pat, "");
    }
  }

  // ---------------------------------------------------------------- characters and numbers

  predicate IsDigit(c: char)
  {
    '0' <= c <= '9'
  }

  function DigitValue(c: char): (d: nat)
    requires IsDigit(c)
    ensures d < 10
  {
    (c as int - '0' as int) as nat
  }

  function DigitChar(d: nat): (c: char)
    requires d < 10
    ensures IsDigit(c) && DigitValue(c) == d
  {
    ('0' as int + d) as char
  }

  /** The value of a string of ASCII digits read in base 10. */
  function DigitsValue(s: string): (v: nat)
    requires forall i :: 0 <= i < |s| ==> IsDigit(s[i])
    ensures v < Pow10(|s|)
  {
    if s == [] then 0 else 10 * DigitsValue(s[..|s| - 1]) + DigitValue(s[|s| - 1])
  }

  /** `n` written with exactly `width` digits, zero-padded on the left (as `%02d`, `%04d`). */
  function Padded(n: nat, width: nat): (r: string)
    ensures |r| == width
    ensures forall i :: 0 <= i < |r| ==> IsDigit(r[i])
  {
    if width == 0 then [] else Padded(n / 10, width - 1) + [DigitChar(n % 10)]
  }

  function Pow10(k: nat): (p: nat)
    ensures p >= 1
  {
    if k == 0 then 1 else 10 * Pow10(k - 1)
  }

  /** Reading back a zero-padded number gives the number, when it fits the width. */
  lemma {:induction false} PaddedRoundTrip(n: nat, width: nat)
    requires n < Pow10(width)
    ensures DigitsValue(Padded(n, width)) == n
  {
    if width > 0 {
      var r := Padded(n, width);
      var q := n / 10;
      assert n == 10 * q + n % 10;
      assert q < Pow10(width - 1) by {
        assert Pow10(width) == 10 * Pow10(width - 1);
      }
      assert r == Padded(q, width - 1) + [DigitChar(n % 10)];
      assert r[..|r| - 1] == Padded(q, width - 1);
      PaddedRoundTrip(q, width - 1);
    }
  }

  /** Python's `str(n)` for a natural number. */
  function NatToString(n: nat): (r: string)
    ensures r != [] && forall i :: 0 <= i < |r| ==> IsDigit(r[i])
  {
    if n < 10 then [DigitChar(n)] else NatToString(n / 10) + [DigitChar(n % 10)]
  }

  /** ASCII and basic-Cyrillic upper case folded to lower case, as case-insensitive matching needs. */
  function LowerChar(c: char): char
  {
    if 'A' <= c <= 'Z' || 'А' <= c <= 'Я' then (c as int + 32) as char else c
  }

  /** Case-insensitive equality of two strings, character by character. */
  predicate EqualsIgnoreCase(a: string, b: string)
  {
    |a| == |b| && forall i :: 0 <= i < |a| ==> LowerChar(a[i]) == LowerChar(b[i])
  }

  /** `s` starts with `p`, ignoring case. */
  predicate StartsWithIgnoreCase(s: string, p: string)
  {
    |p| <= |s| && EqualsIgnoreCase(s[..|p|], p)
  }
}
