/**
 * The Python string built-ins the application relies on: str.strip(),
 * str.lstrip(c), str.rstrip(c), str.split(","), slicing s[i:j] and str(n)
 * for a non-negative integer, each with the property that pins it down.
 */
module PyStr {

  /** The characters for which Python's str.isspace() holds; str.strip() with no argument removes exactly these. */
  predicate IsSpace(c: char) {
    c == ' ' || ('\t' <= c <= '\r') || ('\U{1c}' <= c <= '\U{1f}') || c == '\U{85}' || c == '\U{a0}'
    || c == '\U{1680}' || ('\U{2000}' <= c <= '\U{200a}') || c == '\U{2028}' || c == '\U{2029}'
    || c == '\U{202f}' || c == '\U{205f}' || c == '\U{3000}'
  }

  /** s with every leading character satisfying p removed. */
  function LStripWhile(s: string, p: char -> bool): (r: string)
    ensures |r| <= |s|
    decreases |s|
  {
    if s != [] && p(s[0]) then LStripWhile(s[1..], p) else s
  }

  /** s with every trailing character satisfying p removed. */
  function RStripWhile(s: string, p: char -> bool): (r: string)
    ensures |r| <= |s|
    decreases |s|
  {
    if s != [] && p(s[|s| - 1]) then RStripWhile(s[..|s| - 1], p) else s
  }

  /** LStripWhile leaves a suffix of s that does not start with a p-character, and removes only p-characters. */
  lemma {:induction false} LStripWhileSpec(s: string, p: char -> bool)
    ensures var r := LStripWhile(s, p);
      r == s[|s| - |r|..]
      && (forall i :: 0 <= i < |s| - |r| ==> p(s[i]))
      && (r != [] ==> !p(r[0]))
    decreases |s|
  {
    if s != [] && p(s[0]) {
      LStripWhileSpec(s[1..], p);
      var r := LStripWhile(s, p);
      forall i | 0 <= i < |s| - |r| ensures p(s[i]) {
        if i > 0 {
          assert s[i] == s[1..][i - 1];
        }
      }
    }
  }

  /** RStripWhile leaves a prefix of s that does not end with a p-character, and removes only p-characters. */
  lemma {:induction false} RStripWhileSpec(s: string, p: char -> bool)
    ensures var r := RStripWhile(s, p);
      r == s[..|r|]
      && (forall i :: |r| <= i < |s| ==> p(s[i]))
      && (r != [] ==> !p(r[|r| - 1]))
    decreases |s|
  {
    if s != [] && p(s[|s| - 1]) {
      RStripWhileSpec(s[..|s| - 1], p);
      var r := RStripWhile(s, p);
      forall i | |r| <= i < |s| ensures p(s[i]) {
        if i < |s| - 1 {
          assert s[i] == s[..|s| - 1][i];
        }
      }
    }
  }

  /** Python's s.strip(). */
  function Strip(s: string): (r: string)
    ensures |r| <= |s|
  {
    RStripWhile(LStripWhile(s, IsSpace), IsSpace)
  }

  predicate IsSlash(c: char) {
    c == '/'
  }

  /** Python's s.rstrip("/"). */
  function RStripSlashes(s: string): (r: string)
    ensures |r| <= |s|
  {
    RStripWhile(s, IsSlash)
  }

  /** Where s.strip() starts inside s: after the leading whitespace. */
  function StripStart(s: string): nat {
    |s| - |LStripWhile(s, IsSpace)|
  }

  /** s.strip() is the part of s between its leading and its trailing whitespace, and starts and ends with a non-space. */
  lemma StripShape(s: string)
    ensures StripStart(s) + |Strip(s)| <= |s|
    ensures Strip(s) == s[StripStart(s)..StripStart(s) + |Strip(s)|]
    ensures forall k :: 0 <= k < StripStart(s) ==> IsSpace(s[k])
    ensures forall k :: StripStart(s) + |Strip(s)| <= k < |s| ==> IsSpace(s[k])
    ensures Strip(s) != [] ==> !IsSpace(Strip(s)[0]) && !IsSpace(Strip(s)[|Strip(s)| - 1])
  {
    var l := LStripWhile(s, IsSpace);
    var r := RStripWhile(l, IsSpace);
    LStripWhileSpec(s, IsSpace);
    RStripWhileSpec(l, IsSpace);
    var i := |s| - |l|;
    assert l == s[i..];
    assert r == l[..|r|];
    assert r == s[i..i + |r|];
    forall k | 0 <= k < i ensures IsSpace(s[k]) {
    }
    forall k | i + |r| <= k < |s| ensures IsSpace(s[k]) {
      assert s[k] == l[k - i];
    }
  }

  /** s.strip() is empty exactly when every character of s is whitespace. */
  lemma StripEmptyIff(s: string)
    ensures Strip(s) == [] <==> forall k :: 0 <= k < |s| ==> IsSpace(s[k])
  {
    StripShape(s);
    var i := StripStart(s);
    var r := Strip(s);
    if r == [] {
      forall k | 0 <= k < |s| ensures IsSpace(s[k]) {
      }
    } else {
      assert s[i] == r[0];
    }
  }

  /** The pieces of s.split(sep) joined back with sep. */
  function Join(parts: seq<string>, sep: char): (s: string)
    requires |parts| >= 1
  {
    if |parts| == 1 then parts[0] else parts[0] + [sep] + Join(parts[1..], sep)
  }

  /** Python's s.split(sep) for a one-character separator: never empty, no piece holds sep, and joining gives s back. */
  function Split(s: string, sep: char): (parts: seq<string>)
    ensures |parts| >= 1
    ensures forall i :: 0 <= i < |parts| ==> sep !in parts[i]
    ensures Join(parts, sep) == s
  {
    if s == [] then [[]]
    else
      var rest := Split(s[1..], sep);
      if s[0] == sep then
        assert s == [sep] + s[1..];
        [[]] + rest
      else
        var parts := [[s[0]] + rest[0]] + rest[1..];
        assert parts[1..] == rest[1..];
        assert s == [s[0]] + Join(rest, sep);
        parts
  }

  /** Every character of a piece is a character of the joined string. */
  lemma {:induction false} JoinContains(parts: seq<string>, sep: char, j: nat)
    requires j < |parts|
    ensures forall c :: c in parts[j] ==> c in Join(parts, sep)
    decreases |parts|
  {
    if |parts| > 1 && j > 0 {
      JoinContains(parts[1..], sep, j - 1);
    }
  }

  /** Every character of the joined string is a separator or a character of one of the pieces. */
  lemma {:induction false} JoinMembers(parts: seq<string>, sep: char, k: nat)
    requires |parts| >= 1 && k < |Join(parts, sep)|
    ensures Join(parts, sep)[k] == sep || exists j :: 0 <= j < |parts| && Join(parts, sep)[k] in parts[j]
    decreases |parts|
  {
    var s := Join(parts, sep);
    if |parts| == 1 {
      assert s[k] in parts[0];
    } else if k < |parts[0]| {
      assert s[k] == parts[0][k];
      assert s[k] in parts[0];
    } else if k > |parts[0]| {
      var rest := Join(parts[1..], sep);
      assert s[k] == rest[k - |parts[0]| - 1];
      JoinMembers(parts[1..], sep, k - |parts[0]| - 1);
      if s[k] != sep {
        var j :| 0 <= j < |parts[1..]| && rest[k - |parts[0]| - 1] in parts[1..][j];
        assert s[k] in parts[j + 1];
      }
    }
  }

  /** Splitting at a separator splits the two sides independently, in order. */
  lemma {:induction false} SplitConcat(a: string, b: string, sep: char)
    ensures Split(a + [sep] + b, sep) == Split(a, sep) + Split(b, sep)
    decreases |a|
  {
    var s := a + [sep] + b;
    if a == [] {
      assert s[1..] == b;
    } else {
      assert s[1..] == a[1..] + [sep] + b;
      SplitConcat(a[1..], b, sep);
    }
  }

  /** Split undoes Join when no piece contains the separator. */
  lemma {:induction false} SplitJoin(parts: seq<string>, sep: char)
    requires |parts| >= 1
    requires forall i :: 0 <= i < |parts| ==> sep !in parts[i]
    ensures Split(Join(parts, sep), sep) == parts
    decreases |parts|
  {
    NoSepSplit(parts[0], sep);
    if |parts| > 1 {
      SplitConcat(parts[0], Join(parts[1..], sep), sep);
      SplitJoin(parts[1..], sep);
    }
  }

  /** A string without the separator splits into itself alone. */
  lemma {:induction false} NoSepSplit(s: string, sep: char)
    requires sep !in s
    ensures Split(s, sep) == [s]
    decreases |s|
  {
    if s != [] {
      NoSepSplit(s[1..], sep);
    }
  }

  /** Python's s[i:j] for 0 <= i <= j: bounds past the end are clamped to the length. */
  function PySlice(s: string, i: nat, j: nat): (r: string)
    requires i <= j
    ensures |r| == if j <= |s| then j - i else if i <= |s| then |s| - i else 0
    ensures forall k :: 0 <= k < |r| ==> r[k] == s[i + k]
  {
    if i >= |s| then [] else if j >= |s| then s[i..] else s[i..j]
  }

  predicate IsDigit(c: char) {
    '0' <= c <= '9'
  }

  predicate AllDigits(s: string) {
    forall i :: 0 <= i < |s| ==> IsDigit(s[i])
  }

  function DigitChar(d: nat): (c: char)
    requires d < 10
    ensures IsDigit(c) && c as int - '0' as int == d
  {
    ('0' as int + d) as char
  }

  /** Python's str(n) for n >= 0: decimal digits, no sign and no leading zero. */
  function Dec(n: nat): (s: string)
    ensures s != [] && AllDigits(s)
    ensures |s| > 1 ==> s[0] != '0'
    decreases n
  {
    if n < 10 then [DigitChar(n)] else Dec(n / 10) + [DigitChar(n % 10)]
  }

  /** The number a string of decimal digits denotes. */
  function DecValue(s: string): nat
    requires AllDigits(s)
  {
    if s == [] then 0 else 10 * DecValue(s[..|s| - 1]) + (s[|s| - 1] as int - '0' as int)
  }

  /** Reading back str(n) gives n. */
  lemma {:induction false} DecRoundTrip(n: nat)
    ensures DecValue(Dec(n)) == n
    decreases n
  {
    if n >= 10 {
      DecRoundTrip(n / 10);
      var s := Dec(n);
      assert s[..|s| - 1] == Dec(n / 10);
    }
  }

  /** Position of the first occurrence of c in s, if any. */
  function IndexOf(s: string, c: char): (k: int)
    ensures -1 <= k < |s|
    ensures k == -1 <==> c !in s
    ensures k >= 0 ==> s[k] == c && c !in s[..k]
    decreases |s|
  {
    if s == [] then -1
    else if s[0] == c then 0
    else
      var k := IndexOf(s[1..], c);
      if k == -1 then -1
      else
        assert s[..k + 1] == [s[0]] + s[1..][..k];
        k + 1
  }

  /** When the first c of a + [c] + b is the one after a, IndexOf finds it there. */
  lemma IndexOfAfter(a: string, c: char, b: string)
    requires c !in a
    ensures IndexOf(a + [c] + b, c) == |a|
  {
    var s := a + [c] + b;
    assert s[..|a|] == a;
    assert s[|a|] == c;
  }
}
