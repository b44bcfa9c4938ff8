/**
 * The pieces of Rust's `str` API that the updater relies on, written out over
 * `seq<char>`: `split`, `lines`, `replace` (with a character and with a string
 * pattern) and `eq_ignore_ascii_case`.
 */
module Str {

  /** Number of occurrences of `c` in `s`. */
  function Count(s: string, c: char): nat
  {
    multiset(s)[c]
  }

  /** Position of the first `c` in `s`. */
  function IndexOf(s: string, c: char): (i: nat)
    requires c in s
    ensures i < |s| && s[i] == c && c !in s[..i]
  {
    if s[0] == c then 0 else 1 + IndexOf(s[1..], c)
  }

  lemma CountAround(s: string, c: char, i: nat)
    requires i < |s| && s[i] == c
    ensures Count(s, c) == Count(s[..i], c) + 1 + Count(s[i + 1..], c)
  {
    assert s == s[..i] + [c] + s[i + 1..];
  }

  /** A position holding the first `c` is the one `IndexOf` finds. */
  lemma IndexOfUnique(s: string, c: char, i: nat)
    requires i < |s| && s[i] == c && c !in s[..i]
    ensures c in s && IndexOf(s, c) == i
  {
  }

  /** `s.split(c)`: the pieces between the occurrences of `c`, always at least one. */
  function Split(s: string, c: char): (parts: seq<string>)
    ensures |parts| == Count(s, c) + 1
    ensures forall k :: 0 <= k < |parts| ==> c !in parts[k]
    decreases |s|
  {
    if c in s then
      var i := IndexOf(s, c);
      CountAround(s, c, i);
      [s[..i]] + Split(s[i + 1..], c)
    else
      [s]
  }

  /** A string with exactly one `c` splits into the text before it and the text after it. */
  lemma SplitOnce(s: string, c: char)
    requires Count(s, c) == 1
    ensures c in s
    ensures Split(s, c) == [s[..IndexOf(s, c)], s[IndexOf(s, c) + 1..]]
  {
    assert c in multiset(s);
    var i := IndexOf(s, c);
    CountAround(s, c, i);
    assert c !in s[i + 1..] by {
      assert Count(s[i + 1..], c) == 0;
    }
  }

  /** `s.replace(c, "")`: every occurrence of `c` removed. */
  function RemoveChar(s: string, c: char): (r: string)
    ensures multiset(r) == multiset(s)[c := 0]
  {
    if s == [] then []
    else
      assert s == [s[0]] + s[1..];
      assert multiset(s) == multiset{s[0]} + multiset(s[1..]);
      if s[0] == c then RemoveChar(s[1..], c) else [s[0]] + RemoveChar(s[1..], c)
  }

  /** `pat` occurs in `s` starting at position `i`. */
  predicate OccursAt(s: string, pat: string, i: int)
  {
    0 <= i && i + |pat| <= |s| && s[i..i + |pat|] == pat
  }

  ghost predicate Contains(s: string, pat: string)
  {
    exists i :: OccursAt(s, pat, i)
  }

  /**
   * `s.replace(pat, to)` for a non-empty pattern: the occurrences of `pat` are
   * found left to right without overlap and each is replaced by `to`.
   */
  function Replace(s: string, pat: string, to: string): string
    requires pat != []
    decreases |s|
  {
    if |s| < |pat| then s
    else if s[..|pat|] == pat then to + Replace(s[|pat|..], pat, to)
    else [s[0]] + Replace(s[1..], pat, to)
  }

  /** Replacing a pattern that does not occur gives back the input. */
  lemma {:induction false} ReplaceAbsent(s: string, pat: string, to: string)
    requires pat != [] && !Contains(s, pat)
    ensures Replace(s, pat, to) == s
    decreases |s|
  {
    if |s| >= |pat| {
      assert !OccursAt(s, pat, 0);
      assert s[..|pat|] != pat;
      assert !Contains(s[1..], pat) by {
        forall i | OccursAt(s[1..], pat, i) ensures OccursAt(s, pat, i + 1) {
          assert s[1..][i..i + |pat|] == s[i + 1..i + 1 + |pat|];
        }
      }
      ReplaceAbsent(s[1..], pat, to);
    }
  }

  /** A replacement deleting the pattern never leaves a longer string. */
  lemma {:induction false} ReplaceDeleteShrinks(s: string, pat: string)
    requires pat != []
    ensures |Replace(s, pat, "")| <= |s|
    ensures Contains(s, pat) ==> |Replace(s, pat, "")| <= |s| - |pat|
    decreases |s|
  {
    if |s| >= |pat| {
      if s[..|pat|] == pat {
        ReplaceDeleteShrinks(s[|pat|..], pat);
      } else {
        ReplaceDeleteShrinks(s[1..], pat);
        if Contains(s, pat) {
          var i :| OccursAt(s, pat, i);
          assert i != 0;
          assert OccursAt(s[1..], pat, i - 1) by {
            assert s[1..][i - 1..i - 1 + |pat|] == s[i..i + |pat|];
          }
        }
      }
    }
  }

  /**
   * ASCII lower-casing of one character: the result is never an ASCII
   * capital, it is a small letter exactly when the argument is an ASCII
   * letter of either case, and every other character is left alone.
   */
  function AsciiLower(c: char): (l: char)
    ensures !('A' <= l <= 'Z')
    ensures ('a' <= l <= 'z') <==> ('A' <= c <= 'Z' || 'a' <= c <= 'z')
    ensures !('A' <= c <= 'Z') ==> l == c
  {
    if 'A' <= c <= 'Z' then (c as int + 32) as char else c
  }

  /** Lower-casing twice is lower-casing once. */
  lemma AsciiLowerIdempotent(c: char)
    ensures AsciiLower(AsciiLower(c)) == AsciiLower(c)
  {
  }

  /**
   * Two characters lower to the same character exactly when they are equal
   * or one is an ASCII capital and the other its own small letter.
   */
  lemma AsciiLowerAgree(a: char, b: char)
    ensures AsciiLower(a) == AsciiLower(b) <==>
      || a == b
      || ('A' <= a <= 'Z' && b as int == a as int + 32)
      || ('A' <= b <= 'Z' && a as int == b as int + 32)
  {
  }

  /** `a.eq_ignore_ascii_case(b)`. */
  predicate EqIgnoreAsciiCase(a: string, b: string)
  {
    |a| == |b| && forall i :: 0 <= i < |a| ==> AsciiLower(a[i]) == AsciiLower(b[i])
  }

  /** Two spellings equal up to ASCII case match the same strings. */
  lemma EqIgnoreAsciiCaseTransfer(x: string, a: string, b: string)
    requires EqIgnoreAsciiCase(a, b)
    ensures EqIgnoreAsciiCase(x, a) <==> EqIgnoreAsciiCase(x, b)
  {
  }

  /** `line` with one trailing carriage return removed, as `lines` does before a line feed. */
  function StripCR(line: string): (r: string)
    ensures '\n' !in line ==> '\n' !in r
  {
    if line != [] && line[|line| - 1] == '\r' then line[..|line| - 1] else line
  }

  /**
   * `s.lines()`: split at every line feed, drop one carriage return right
   * before each line feed, and yield no final empty line after a trailing line
   * feed. A last line without a line feed keeps a trailing carriage return.
   */
  function Lines(s: string): (ls: seq<string>)
    ensures forall k :: 0 <= k < |ls| ==> '\n' !in ls[k]
  {
    LinesFrom(s, [])
  }

  /** The lines of `s`, where `cur` holds the already scanned start of the current line. */
  function LinesFrom(s: string, cur: string): (ls: seq<string>)
    requires '\n' !in cur
    ensures forall k :: 0 <= k < |ls| ==> '\n' !in ls[k]
    decreases |s|
  {
    if s == [] then (if cur == [] then [] else [cur])
    else if s[0] == '\n' then [StripCR(cur)] + LinesFrom(s[1..], [])
    else LinesFrom(s[1..], cur + [s[0]])
  }

  /** Text that ends at a line break splits independently of what follows. */
  lemma LinesAppend(a: string, b: string)
    requires a == [] || a[|a| - 1] == '\n'
    ensures Lines(a + b) == Lines(a) + Lines(b)
  {
    if a == [] {
      assert a + b == b;
    } else {
      LinesFromAppend(a, b, []);
    }
  }

  lemma {:induction false} LinesFromAppend(a: string, b: string, cur: string)
    requires '\n' !in cur
    requires a != [] && a[|a| - 1] == '\n'
    ensures LinesFrom(a + b, cur) == LinesFrom(a, cur) + Lines(b)
    decreases |a|
  {
    assert (a + b)[0] == a[0] && (a + b)[1..] == a[1..] + b;
    if a[0] == '\n' {
      if |a| > 1 {
        LinesFromAppend(a[1..], b, []);
      }
    } else {
      LinesFromAppend(a[1..], b, cur + [a[0]]);
    }
  }

  /** One line feed-terminated line that does not end in a carriage return is one line. */
  lemma LinesOfOne(line: string)
    requires '\n' !in line
    requires line == [] || line[|line| - 1] != '\r'
    ensures Lines(line + "\n") == [line]
  {
    LinesFromOne(line, []);
    assert [] + line == line;
  }

  lemma {:induction false} LinesFromOne(line: string, cur: string)
    requires '\n' !in line && '\n' !in cur
    ensures LinesFrom(line + "\n", cur) == [StripCR(cur + line)]
    decreases |line|
  {
    if line == [] {
      assert cur + line == cur;
    } else {
      assert (line + "\n")[1..] == line[1..] + "\n";
      assert (cur + [line[0]]) + line[1..] == cur + line;
      LinesFromOne(line[1..], cur + [line[0]]);
    }
  }

  /** Text without a line feed is a single line. */
  lemma LinesOfLast(line: string)
    requires line != [] && '\n' !in line
    ensures Lines(line) == [line]
  {
    LinesFromLast(line, []);
    assert [] + line == line;
  }

  lemma {:induction false} LinesFromLast(line: string, cur: string)
    requires '\n' !in line && '\n' !in cur && cur + line != []
    ensures LinesFrom(line, cur) == [cur + line]
    decreases |line|
  {
    if line == [] {
      assert cur + line == cur;
    } else {
      assert (cur + [line[0]]) + line[1..] == cur + line;
      LinesFromLast(line[1..], cur + [line[0]]);
    }
  }

  /** Removing a character that does not occur changes nothing. */
  lemma {:induction false} RemoveCharAbsent(s: string, c: char)
    requires c !in s
    ensures RemoveChar(s, c) == s
  {
    if s != [] {
      RemoveCharAbsent(s[1..], c);
    }
  }

  /** Removing a character distributes over concatenation. */
  lemma {:induction false} RemoveCharAppend(a: string, b: string, c: char)
    ensures RemoveChar(a + b, c) == RemoveChar(a, c) + RemoveChar(b, c)
  {
    if a == [] {
      assert a + b == b;
    } else {
      assert (a + b)[0] == a[0] && (a + b)[1..] == a[1..] + b;
      RemoveCharAppend(a[1..], b, c);
    }
  }
}
