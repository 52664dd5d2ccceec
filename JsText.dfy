/**
 * The small part of the JavaScript string library that the application's
 * components lean on: the character classes of regular expressions (`.`,
 * `\s`, `\d`), `String.prototype.trim`, `split` on one character, `includes`,
 * ASCII case mapping and the decimal rendering of a number inside a
 * template literal.
 *
 * JavaScript strings are sequences of UTF-16 code units; here a string is a
 * `seq<char>` and every length is a count of `char`s.
 */
module JsText {

  datatype Option<+T> = None | Some(value: T)

  /** The characters a regular expression's `.` refuses (the JavaScript line terminators). */
  predicate IsLineTerminator(c: char) {
    c == '\n' || c == '\r' || c == '\U{2028}' || c == '\U{2029}'
  }

  /**
   * The class `\s` of a JavaScript regular expression, which is also the set
   * of characters `trim` strips: the white-space characters (tab, vertical
   * tab, form feed, space, no-break space, the byte order mark and the other
   * space separators) and the line terminators.
   */
  predicate IsWhitespace(c: char) {
    || c == '\t' || c == '\U{000B}' || c == '\U{000C}' || c == ' '
    || c == '\U{00A0}' || c == '\U{1680}' || ('\U{2000}' <= c <= '\U{200A}')
    || c == '\U{202F}' || c == '\U{205F}' || c == '\U{3000}' || c == '\U{FEFF}'
    || IsLineTerminator(c)
  }

  /** The class `\d` (and `[0-9]`): an ASCII digit. */
  predicate IsDigit(c: char) {
    '0' <= c <= '9'
  }

  predicate AllWhitespace(s: string) {
    forall k :: 0 <= k < |s| ==> IsWhitespace(s[k])
  }

  predicate NoLineTerminator(s: string) {
    forall k :: 0 <= k < |s| ==> !IsLineTerminator(s[k])
  }

  // ---------------------------------------------------------------- trim

  /** Index of the first character that is not white space (`|s|` if none). */
  function TrimStartIndex(s: string): (i: nat)
    ensures i <= |s|
    ensures AllWhitespace(s[..i])
    ensures i < |s| ==> !IsWhitespace(s[i])
    ensures forall k :: 0 <= k < |s| && !IsWhitespace(s[k]) ==> i <= k
  {
    if |s| == 0 || !IsWhitespace(s[0]) then 0
    else
      var j := TrimStartIndex(s[1..]);
      assert s[1..][..j] == s[1..j + 1];
      j + 1
  }

  /** Index just past the last character that is not white space (0 if none). */
  function TrimEndIndex(s: string): (j: nat)
    ensures j <= |s|
    ensures AllWhitespace(s[j..])
    ensures j > 0 ==> !IsWhitespace(s[j - 1])
    ensures forall k :: 0 <= k < |s| && !IsWhitespace(s[k]) ==> k < j
  {
    if |s| == 0 || !IsWhitespace(s[|s| - 1]) then |s|
    else
      var j := TrimEndIndex(s[..|s| - 1]);
      assert s[..|s| - 1][j..] == s[j..|s| - 1];
      j
  }

  /** `s.trim()`: the text between the leading and the trailing white space. */
  function Trim(s: string): (r: string)
    ensures |r| <= |s|
    ensures |r| > 0 ==> !IsWhitespace(r[0]) && !IsWhitespace(r[|r| - 1])
  {
    var i := TrimStartIndex(s);
    var j := TrimEndIndex(s);
    if i <= j then s[i..j] else ""
  }

  /** A string trims to "" exactly when it is all white space; otherwise the
   *  trimmed text is embedded in the original between white-space runs. */
  lemma TrimBlank(s: string)
    ensures Trim(s) == "" <==> AllWhitespace(s)
    ensures exists i, j :: 0 <= i <= j <= |s| && Trim(s) == s[i..j] && AllWhitespace(s[..i]) && AllWhitespace(s[j..])
  {
    var i := TrimStartIndex(s);
    var j := TrimEndIndex(s);
    if i < |s| {
      assert i < j;
      assert Trim(s) == s[i..j] && Trim(s)[0] == s[i];
    } else {
      assert s[..i] == s;
      assert Trim(s) == s[i..i];
    }
  }

  /** Trimming twice trims no more than once. */
  lemma TrimIdempotent(s: string)
    ensures Trim(Trim(s)) == Trim(s)
  {
    var r := Trim(s);
    if |r| > 0 {
      var i := TrimStartIndex(r);
      var j := TrimEndIndex(r);
      assert i == 0 && j == |r|;
      assert r[0..|r|] == r;
    }
  }

  // ---------------------------------------------------------------- split

  /** `s.split(c)` for a one-character separator: never empty, and an empty
   *  piece stands wherever two separators meet or one sits at an end. */
  function Split(s: string, c: char): (parts: seq<string>)
    ensures |parts| >= 1
    ensures forall p :: p in parts ==> c !in p
  {
    if |s| == 0 then [""]
    else
      var rest := Split(s[1..], c);
      if s[0] == c then [""] + rest
      else [[s[0]] + rest[0]] + rest[1..]
  }

  /** `parts.join(c)`. */
  function Join(parts: seq<string>, c: char): string
    requires |parts| >= 1
  {
    if |parts| == 1 then parts[0] else parts[0] + [c] + Join(parts[1..], c)
  }

  /** Splitting and joining again gives back the text. */
  lemma {:induction false} JoinSplit(s: string, c: char)
    ensures Join(Split(s, c), c) == s
  {
    if |s| > 0 {
      JoinSplit(s[1..], c);
      var rest := Split(s[1..], c);
      if s[0] == c {
        JoinSeparatorFirst(rest, c);
      } else {
        JoinCharFirst(s[0], rest, c);
      }
      assert s == [s[0]] + s[1..];
    }
  }

  lemma JoinSeparatorFirst(parts: seq<string>, c: char)
    requires |parts| >= 1
    ensures Join([""] + parts, c) == [c] + Join(parts, c)
  {
    assert ([""] + parts)[1..] == parts;
  }

  lemma JoinCharFirst(x: char, parts: seq<string>, c: char)
    requires |parts| >= 1
    ensures Join([[x] + parts[0]] + parts[1..], c) == [x] + Join(parts, c)
  {
    var ps := [[x] + parts[0]] + parts[1..];
    if |parts| > 1 {
      assert ps[1..] == parts[1..];
    }
  }

  /** With two pieces or more, the last piece follows the final separator. */
  lemma {:induction false} JoinLast(parts: seq<string>, c: char)
    requires |parts| >= 2
    ensures Join(parts, c) == Join(parts[..|parts| - 1], c) + [c] + parts[|parts| - 1]
  {
    if |parts| > 2 {
      JoinLast(parts[1..], c);
      assert parts[1..][..|parts| - 2] == parts[..|parts| - 1][1..];
    }
  }

  /**
   * `s.split(c).pop()`: the last piece is the text after the last
   * separator, or the whole text when it has no separator.
   */
  lemma LastPiece(s: string, c: char)
    ensures var last := Split(s, c)[|Split(s, c)| - 1];
      && c !in last
      && (c !in s ==> last == s)
      && (c in s ==> exists i :: 0 <= i < |s| && s[i] == c && last == s[i + 1..])
  {
    var parts := Split(s, c);
    var last := parts[|parts| - 1];
    assert last in parts;
    if c !in s {
      SplitNoSeparator(s, c);
    } else {
      JoinSplit(s, c);
      JoinLast(parts, c);
      var i := |Join(parts[..|parts| - 1], c)|;
      assert s[i] == c && last == s[i + 1..];
    }
  }

  /** Joining pieces free of the separator and splitting again gives back the pieces. */
  lemma {:induction false} SplitJoin(parts: seq<string>, c: char)
    requires |parts| >= 1
    requires forall p :: p in parts ==> c !in p
    ensures Split(Join(parts, c), c) == parts
  {
    if |parts| == 1 {
      SplitNoSeparator(parts[0], c);
    } else {
      SplitJoin(parts[1..], c);
      SplitAfter(parts[0], Join(parts[1..], c), c);
      assert parts == [parts[0]] + parts[1..];
    }
  }

  lemma {:induction false} SplitNoSeparator(s: string, c: char)
    requires c !in s
    ensures Split(s, c) == [s]
  {
    if |s| > 0 {
      assert c !in s[1..] by { forall k | 0 <= k < |s| - 1 ensures s[1..][k] != c { assert s[1..][k] == s[k + 1]; } }
      SplitNoSeparator(s[1..], c);
      assert s == [s[0]] + s[1..];
    }
  }

  lemma {:induction false} SplitAfter(p: string, t: string, c: char)
    requires c !in p
    ensures Split(p + [c] + t, c) == [p] + Split(t, c)
  {
    if |p| == 0 {
      assert (p + [c] + t)[1..] == t;
    } else {
      assert c !in p[1..] by { forall k | 0 <= k < |p| - 1 ensures p[1..][k] != c { assert p[1..][k] == p[k + 1]; } }
      SplitAfter(p[1..], t, c);
      assert (p + [c] + t)[1..] == p[1..] + [c] + t;
      assert [p[0]] + p[1..] == p;
    }
  }

  // ---------------------------------------------------------------- includes

  /** `s.includes(sub)`. */
  predicate Contains(s: string, sub: string)
    decreases |s|
  {
    sub <= s || (|s| > 0 && Contains(s[1..], sub))
  }

  /** `sub` stands in `s` starting at index `i`, character by character. */
  predicate OccursAt(s: string, sub: string, i: nat) {
    i + |sub| <= |s| && forall k :: 0 <= k < |sub| ==> s[i + k] == sub[k]
  }

  /** An occurrence is the slice of that length being equal to `sub`. */
  lemma OccursAtSlice(s: string, sub: string, i: nat)
    ensures OccursAt(s, sub, i) <==> i + |sub| <= |s| && s[i..i + |sub|] == sub
  {
    if i + |sub| <= |s| {
      if OccursAt(s, sub, i) {
        assert s[i..i + |sub|] == sub by {
          forall k | 0 <= k < |sub| ensures s[i..i + |sub|][k] == sub[k] { assert s[i..i + |sub|][k] == s[i + k]; }
        }
      }
      if s[i..i + |sub|] == sub {
        forall k | 0 <= k < |sub| ensures s[i + k] == sub[k] { assert s[i..i + |sub|][k] == s[i + k]; }
      }
    }
  }

  /** Two occurrences side by side are an occurrence of the concatenation. */
  lemma OccursAppend(s: string, a: string, b: string, i: nat)
    requires OccursAt(s, a, i) && OccursAt(s, b, i + |a|)
    ensures OccursAt(s, a + b, i)
  {
    forall k | 0 <= k < |a + b| ensures s[i + k] == (a + b)[k] {
      if k >= |a| {
        assert s[i + |a| + (k - |a|)] == b[k - |a|];
      }
    }
  }

  /** `includes` holds exactly when `sub` occurs at some position of `s`. */
  lemma {:induction false} ContainsAt(s: string, sub: string)
    ensures Contains(s, sub) <==> exists i: nat :: OccursAt(s, sub, i)
  {
    OccursAtSlice(s, sub, 0);
    if !(sub <= s) && |s| > 0 {
      ContainsAt(s[1..], sub);
      if exists i: nat :: OccursAt(s, sub, i) {
        var i: nat :| OccursAt(s, sub, i);
        OccursTail(s, sub, i - 1);
      }
      if Contains(s[1..], sub) {
        var i: nat :| OccursAt(s[1..], sub, i);
        OccursTail(s, sub, i);
      }
    }
  }

  /** An occurrence in the tail is an occurrence one place further on. */
  lemma OccursTail(s: string, sub: string, i: nat)
    requires |s| > 0
    ensures OccursAt(s, sub, i + 1) <==> OccursAt(s[1..], sub, i)
  {
    if OccursAt(s, sub, i + 1) {
      forall k | 0 <= k < |sub| ensures s[1..][i + k] == sub[k] { assert s[i + 1 + k] == sub[k]; }
    }
    if OccursAt(s[1..], sub, i) {
      forall k | 0 <= k < |sub| ensures s[i + 1 + k] == sub[k] { assert s[1..][i + k] == sub[k]; }
    }
  }

  // ---------------------------------------------------------------- case

  /** `toLowerCase` on one character, for the ASCII letters. */
  function LowerChar(c: char): char {
    if 'A' <= c <= 'Z' then (c as int + 32) as char else c
  }

  /** `toUpperCase` on one character, for the ASCII letters. */
  function UpperChar(c: char): char {
    if 'a' <= c <= 'z' then (c as int - 32) as char else c
  }

  function Lower(s: string): (r: string)
    ensures |r| == |s|
    ensures forall k :: 0 <= k < |s| ==> r[k] == LowerChar(s[k])
  {
    seq(|s|, k requires 0 <= k < |s| => LowerChar(s[k]))
  }

  function Upper(s: string): (r: string)
    ensures |r| == |s|
    ensures forall k :: 0 <= k < |s| ==> r[k] == UpperChar(s[k])
  {
    seq(|s|, k requires 0 <= k < |s| => UpperChar(s[k]))
  }

  // ---------------------------------------------------------------- numbers

  function DigitChar(d: nat): char
    requires d < 10
  {
    ('0' as int + d) as char
  }

  /** A natural number as a template literal writes it: decimal, no leading zero. */
  function NatToString(n: nat): (r: string)
    ensures |r| >= 1
    ensures forall k :: 0 <= k < |r| ==> IsDigit(r[k])
    ensures r[0] == '0' ==> n == 0 && r == "0"
    decreases n
  {
    if n < 10 then [DigitChar(n)] else NatToString(n / 10) + [DigitChar(n % 10)]
  }

  /** The value of a string of decimal digits. */
  function DecimalValue(s: string): nat
    requires forall k :: 0 <= k < |s| ==> IsDigit(s[k])
  {
    if |s| == 0 then 0
    else
      var d := s[|s| - 1];
      assert IsDigit(d);
      10 * DecimalValue(s[..|s| - 1]) + (d as int - '0' as int)
  }

  /** The rendering of a number reads back as that number. */
  lemma {:induction false} NatToStringValue(n: nat)
    ensures DecimalValue(NatToString(n)) == n
    decreases n
  {
    if n >= 10 {
      NatToStringValue(n / 10);
      var r := NatToString(n);
      assert r[..|r| - 1] == NatToString(n / 10);
    }
  }

  /** Distinct numbers render as distinct strings. */
  lemma NatToStringInjective(m: nat, n: nat)
    requires NatToString(m) == NatToString(n)
    ensures m == n
  {
    NatToStringValue(m);
    NatToStringValue(n);
  }
}
