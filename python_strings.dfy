/** The Python string built-ins the text cleanup and the upload check rely on:
    `str.isspace`, `str.strip`, `str.split(sep)`, `sep.join`, `str.lower` and
    `str.endswith(tuple)`. Strings are sequences of Unicode scalar values. */
module PythonStrings {

  /** Python's `str.isspace()` on one character, which also decides what
      `str.strip()` with no argument removes: tab, newline, vertical tab, form
      feed, carriage return, the four information separators, space, next
      line, no-break space, ogham space mark, the eleven spaces from en quad to
      hair space, line and paragraph separators, narrow no-break space, medium
      mathematical space and ideographic space. */
  predicate IsSpace(c: char): (b: bool)
    ensures c as int < 0x80 ==>
              (b <==> c in {' ', '\t', '\n', '\U{B}', '\U{C}', '\r', '\U{1C}', '\U{1D}', '\U{1E}', '\U{1F}'})
    ensures b ==> c as int <= 0x3000
  {
    || ('\t' <= c <= '\r')
    || ('\U{1C}' <= c <= ' ')
    || c == '\U{85}' || c == '\U{A0}' || c == '\U{1680}'
    || ('\U{2000}' <= c <= '\U{200A}')
    || c == '\U{2028}' || c == '\U{2029}' || c == '\U{202F}' || c == '\U{205F}' || c == '\U{3000}'
  }

  predicate AllSpace(s: string) {
    forall i :: 0 <= i < |s| ==> IsSpace(s[i])
  }

  /** Neither end of `s` is whitespace. */
  predicate Trimmed(s: string) {
    s == [] || (!IsSpace(s[0]) && !IsSpace(s[|s| - 1]))
  }

  /** `core` is `s` with some whitespace removed at each end, and only that. */
  ghost predicate IsCoreOf(s: string, core: string) {
    exists i :: CoreAt(s, core, i)
  }

  /** `core` is the slice of `s` starting at `i`, with only whitespace around it. */
  predicate CoreAt(s: string, core: string, i: int) {
    0 <= i <= |s| - |core| && s[i..i + |core|] == core && AllSpace(s[..i]) && AllSpace(s[i + |core|..])
  }

  /** How many whitespace characters `s` ends with. */
  function TrailingSpaces(s: string): (n: nat)
    ensures n <= |s|
    ensures forall i :: |s| - n <= i < |s| ==> IsSpace(s[i])
    ensures n == |s| || !IsSpace(s[|s| - n - 1])
  {
    if s != [] && IsSpace(s[|s| - 1]) then 1 + TrailingSpaces(s[..|s| - 1]) else 0
  }

  /** `s.rstrip()` */
  function StripRight(s: string): (r: string)
    ensures |r| <= |s| && r == s[..|r|]
    ensures AllSpace(s[|r|..])
    ensures r == [] || !IsSpace(r[|r| - 1])
  {
    s[..|s| - TrailingSpaces(s)]
  }

  /** `s.strip()`: leading whitespace is dropped one character at a time, then
      trailing whitespace all at once. */
  function Strip(s: string): (r: string)
    ensures Trimmed(r)
    ensures r == [] <==> AllSpace(s)
  {
    if s != [] && IsSpace(s[0]) then
      assert AllSpace(s) <==> AllSpace(s[1..]) by {
        assert forall k :: 0 <= k < |s[1..]| ==> s[1..][k] == s[k + 1];
      }
      Strip(s[1..])
    else
      StripRight(s)
  }

  /** What `strip()` removes is whitespace at the two ends, and only that. */
  lemma {:induction false} StripIsCore(s: string)
    ensures IsCoreOf(s, Strip(s))
  {
    if s != [] && IsSpace(s[0]) {
      StripIsCore(s[1..]);
      var i :| CoreAt(s[1..], Strip(s[1..]), i);
      CoreAtLeadingSpace(s, Strip(s[1..]), i);
    } else {
      CoreAtStripRight(s);
    }
  }

  /** A core of `s[1..]` is a core of `s` when `s` starts with whitespace. */
  lemma CoreAtLeadingSpace(s: string, core: string, i: int)
    requires s != [] && IsSpace(s[0]) && CoreAt(s[1..], core, i)
    ensures CoreAt(s, core, i + 1)
  {
    var rest := s[1..];
    assert s[i + 1..i + 1 + |core|] == rest[i..i + |core|];
    var lead, tail := s[..i + 1], s[i + 1 + |core|..];
    forall j | 0 <= j < |lead| ensures IsSpace(lead[j]) {
      if j > 0 {
        assert lead[j] == rest[..i][j - 1];
      }
    }
    assert tail == rest[i + |core|..];
  }

  /** `s.rstrip()` is a core of `s` at position 0. */
  lemma CoreAtStripRight(s: string)
    ensures CoreAt(s, StripRight(s), 0)
  {
    var r := StripRight(s);
    assert s[0..0 + |r|] == r && s[..0] == [];
    var tail := s[|r|..];
    forall j | 0 <= j < |tail| ensures IsSpace(tail[j]) {
      assert tail[j] == s[|r| + j];
    }
  }

  /** Every character of `s.strip()` is a character of `s`. */
  lemma StripKeepsCharacters(s: string, c: char)
    requires c in Strip(s)
    ensures c in s
  {
    var r := Strip(s);
    StripIsCore(s);
    var i :| CoreAt(s, r, i);
    var k :| 0 <= k < |r| && r[k] == c;
    assert s[i + k] == c;
  }

  lemma {:induction false} StripLeftAt(s: string, i: nat)
    requires i <= |s| && AllSpace(s[..i]) && (i == |s| || !IsSpace(s[i]))
    ensures Strip(s) == StripRight(s[i..])
  {
    if i > 0 {
      assert IsSpace(s[..i][0]);
      assert s[1..][..i - 1] == s[1..i];
      StripLeftAt(s[1..], i - 1);
      assert s[1..][i - 1..] == s[i..];
    }
  }

  lemma StripRightAt(s: string, j: nat)
    requires j <= |s| && AllSpace(s[j..]) && (j == 0 || !IsSpace(s[j - 1]))
    ensures StripRight(s) == s[..j]
  {
  }

  /** `strip()` is the unique trimmed core of a string: any way of cutting only
      whitespace off both ends that leaves no whitespace at either end gives
      exactly `Strip(s)`. */
  lemma StripCharacterized(s: string, core: string)
    requires IsCoreOf(s, core) && Trimmed(core)
    ensures core == Strip(s)
  {
    var i :| CoreAt(s, core, i);
    if core == [] {
      forall j | 0 <= j < |s| ensures IsSpace(s[j]) {
        if j < i {
          assert s[j] == s[..i][j];
        } else {
          assert s[j] == s[i..][j - i];
        }
      }
    } else {
      StripNonEmptyCore(s, core, i);
    }
  }

  /** The non-empty case of `StripCharacterized`: leading whitespace up to the
      core's first character, then trailing whitespace after its last. */
  lemma StripNonEmptyCore(s: string, core: string, i: int)
    requires CoreAt(s, core, i) && core != [] && Trimmed(core)
    ensures Strip(s) == core
  {
    assert s[i] == core[0];
    StripLeftAt(s, i);
    var left := s[i..];
    assert left[..|core|] == core;
    assert left[|core|..] == s[i + |core|..];
    assert left[|core| - 1] == core[|core| - 1];
    StripRightAt(left, |core|);
  }

  /** Stripping a string that has no whitespace at its ends changes nothing,
      so `strip()` is idempotent. */
  lemma StripTrimmed(s: string)
    requires Trimmed(s)
    ensures Strip(s) == s
  {
    assert CoreAt(s, s, 0);
    StripCharacterized(s, s);
  }

  /** `sep.join(parts)` */
  function Join(parts: seq<string>, sep: char): (r: string)
    ensures |parts| == 1 ==> r == parts[0]
  {
    if |parts| == 0 then []
    else if |parts| == 1 then parts[0]
    else parts[0] + [sep] + Join(parts[1..], sep)
  }

  lemma JoinCons(c: char, p: string, q: seq<string>, sep: char)
    ensures Join([[c] + p] + q, sep) == [c] + Join([p] + q, sep)
  {
    assert ([[c] + p] + q)[1..] == q;
    assert ([p] + q)[1..] == q;
  }

  /** `s.split(sep)`: the pieces between the occurrences of `sep`; there is always
      at least one of them, and joining them with `sep` gives `s` back. */
  function Split(s: string, sep: char): (r: seq<string>)
    ensures |r| >= 1
    ensures forall k :: 0 <= k < |r| ==> sep !in r[k]
    ensures Join(r, sep) == s
  {
    if s == [] then [[]]
    else
      var rest := Split(s[1..], sep);
      if s[0] == sep then
        assert ([[]] + rest)[1..] == rest;
        [[]] + rest
      else
        JoinCons(s[0], rest[0], rest[1..], sep);
        assert [rest[0]] + rest[1..] == rest;
        assert s == [s[0]] + s[1..];
        [[s[0]] + rest[0]] + rest[1..]
  }

  /** Round trip the other way: splitting a join of separator-free pieces gives
      the pieces back. */
  lemma {:induction false} SplitJoin(parts: seq<string>, sep: char)
    requires |parts| >= 1
    requires forall k :: 0 <= k < |parts| ==> sep !in parts[k]
    ensures Split(Join(parts, sep), sep) == parts
    decreases |parts|, |parts[0]|
  {
    var s := Join(parts, sep);
    if parts[0] == [] {
      if |parts| > 1 {
        var tail := parts[1..];
        assert s == [sep] + Join(tail, sep);
        assert s[1..] == Join(tail, sep);
        SplitJoin(tail, sep);
        assert [[]] + tail == parts;
      }
    } else {
      var c, p := parts[0][0], parts[0][1..];
      assert parts[0] == [c] + p;
      var q := [p] + parts[1..];
      assert parts == [[c] + p] + parts[1..];
      JoinCons(c, p, parts[1..], sep);
      assert s == [c] + Join(q, sep);
      assert s[1..] == Join(q, sep);
      forall k | 0 <= k < |q| ensures sep !in q[k] {
        if k == 0 {
          assert forall x :: x in p ==> x in parts[0];
        } else {
          assert q[k] == parts[k];
        }
      }
      SplitJoin(q, sep);
      assert q[1..] == parts[1..];
    }
  }

  /** A string without the separator splits into itself alone. */
  lemma SplitNoSeparator(s: string, sep: char)
    requires sep !in s
    ensures Split(s, sep) == [s]
  {
    SplitJoin([s], sep);
  }

  /** Every character of a piece of `s.split(sep)` is a character of `s`. */
  lemma {:induction false} SplitPiecesFromInput(s: string, sep: char, k: nat, c: char)
    requires k < |Split(s, sep)| && c in Split(s, sep)[k]
    ensures c in s
  {
    if s != [] {
      var rest := Split(s[1..], sep);
      if s[0] == sep {
        if k > 0 {
          assert Split(s, sep)[k] == rest[k - 1];
          SplitPiecesFromInput(s[1..], sep, k - 1, c);
        }
      } else if k == 0 {
        if c != s[0] {
          assert c in rest[0];
          SplitPiecesFromInput(s[1..], sep, 0, c);
        }
      } else {
        assert Split(s, sep)[k] == rest[k];
        SplitPiecesFromInput(s[1..], sep, k, c);
      }
    }
  }

  /** Python's `str.lower()` on one character, for the ASCII upper-case letters. */
  function LowerChar(c: char): (r: char)
    ensures !('A' <= r <= 'Z')
    ensures !('A' <= c <= 'Z') ==> r == c
    ensures 'A' <= c <= 'Z' ==> 'a' <= r <= 'z' && r as int - 'a' as int == c as int - 'A' as int
  {
    if 'A' <= c <= 'Z' then (c as int - 'A' as int + 'a' as int) as char else c
  }

  /** `s.lower()`, character by character. */
  function Lower(s: string): (r: string)
    ensures |r| == |s|
    ensures forall i :: 0 <= i < |r| ==> !('A' <= r[i] <= 'Z')
    ensures forall i :: 0 <= i < |s| && !('A' <= s[i] <= 'Z') ==> r[i] == s[i]
    ensures forall i :: 0 <= i < |s| && 'A' <= s[i] <= 'Z' ==> r[i] as int - s[i] as int == 'a' as int - 'A' as int
  {
    seq(|s|, i requires 0 <= i < |s| => LowerChar(s[i]))
  }

  /** Lower-casing twice is lower-casing once. */
  lemma LowerIdempotent(s: string)
    ensures Lower(Lower(s)) == Lower(s)
  {
  }

  /** A string without ASCII capitals is its own lower-cased form. */
  lemma LowerWithoutCapitals(s: string)
    requires forall i :: 0 <= i < |s| ==> !('A' <= s[i] <= 'Z')
    ensures Lower(s) == s
  {
    assert forall i :: 0 <= i < |s| ==> Lower(s)[i] == s[i];
  }

  /** `s.endswith(suffix)` */
  predicate EndsWith(s: string, suffix: string): (b: bool)
    ensures b <==> |suffix| <= |s| && forall i :: 0 <= i < |suffix| ==> s[|s| - |suffix| + i] == suffix[i]
  {
    |suffix| <= |s| && s[|s| - |suffix|..] == suffix
  }

  /** `s.endswith(tuple(suffixes))`: true when any of the suffixes ends `s`. */
  function EndsWithAny(s: string, suffixes: seq<string>): (b: bool)
    ensures b <==> exists k :: 0 <= k < |suffixes| && EndsWith(s, suffixes[k])
  {
    if suffixes == [] then false
    else
      assert forall k :: 1 <= k < |suffixes| ==> suffixes[k] == suffixes[1..][k - 1];
      EndsWith(s, suffixes[0]) || EndsWithAny(s, suffixes[1..])
  }
}
