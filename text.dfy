/** The Option type used for Java's nullable references and for fallible lookups. */
module Wrappers {

  datatype Option<+T> = None | Some(value: T)
}

/**
 * String helpers shared by the SQL generator, the schema renderer and the
 * database model: decimal rendering of the view counter, joining with a
 * separator, splitting at a character, whitespace trimming and token scanning.
 */
module Text {

  /** Java's regular-expression class `\s`: space, tab, newline, vertical tab, form feed, carriage return. */
  predicate IsSpace(c: char) {
    c == ' ' || c == '\t' || c == '\n' || c == '\U{0B}' || c == '\U{0C}' || c == '\r'
  }

  predicate IsDigits(s: string) {
    forall i :: 0 <= i < |s| ==> '0' <= s[i] <= '9'
  }

  function DigitChar(d: nat): (c: char)
    requires d < 10
    ensures '0' <= c <= '9'
  {
    (d + '0' as int) as char
  }

  function DigitValue(c: char): nat
    requires '0' <= c <= '9'
  {
    c as int - '0' as int
  }

  /** Decimal rendering of a natural number, as Java's string concatenation of an int produces it. */
  function NatToString(n: nat): (s: string)
    ensures |s| > 0 && IsDigits(s)
    decreases n
  {
    if n < 10 then [DigitChar(n)] else NatToString(n / 10) + [DigitChar(n % 10)]
  }

  /** The number a string of decimal digits denotes. */
  function DigitsValue(s: string): nat
    requires IsDigits(s)
    decreases |s|
  {
    if s == [] then 0 else 10 * DigitsValue(s[..|s| - 1]) + DigitValue(s[|s| - 1])
  }

  /** Reading back the decimal rendering gives the number: the rendering is injective. */
  lemma {:induction false} DigitsValueOfNatToString(n: nat)
    ensures DigitsValue(NatToString(n)) == n
    decreases n
  {
    if n >= 10 {
      var s := NatToString(n / 10);
      DigitsValueOfNatToString(n / 10);
      assert (s + [DigitChar(n % 10)])[..|s|] == s;
    }
  }

  /** `parts` separated by `sep`, with no separator before the first part. */
  function JoinWith(sep: string, parts: seq<string>): string
    decreases |parts|
  {
    if |parts| == 0 then ""
    else if |parts| == 1 then parts[0]
    else parts[0] + sep + JoinWith(sep, parts[1..])
  }

  /** Appending a part at the end adds the separator only when something precedes it. */
  lemma {:induction false} JoinSnoc(sep: string, parts: seq<string>, p: string)
    ensures JoinWith(sep, parts + [p]) == if parts == [] then p else JoinWith(sep, parts) + sep + p
    decreases |parts|
  {
    if |parts| == 1 {
      assert (parts + [p])[1..] == [p];
    } else if |parts| > 1 {
      assert (parts + [p])[1..] == parts[1..] + [p];
      JoinSnoc(sep, parts[1..], p);
    }
  }

  /**
   * One step of a loop that appends ", " (except before the first part) and
   * then the pieces of part `i`: the text so far stays `head` followed by the
   * parts joined with ", ".
   */
  lemma JoinCommaStep(head: string, parts: seq<string>, i: nat, a: string, mid: string, b: string)
    requires i < |parts| && parts[i] == a + mid + b
    ensures i > 0 ==> head + JoinWith(", ", parts[..i]) + ", " + a + mid + b == head + JoinWith(", ", parts[..i + 1])
    ensures i == 0 ==> head + JoinWith(", ", parts[..i]) + a + mid + b == head + JoinWith(", ", parts[..i + 1])
  {
    JoinSnoc(", ", parts[..i], parts[i]);
    assert parts[..i + 1] == parts[..i] + [parts[i]];
  }

  /** The pieces of `s` between occurrences of `c`: one more piece than there are `c`s. */
  function Split(s: string, c: char): (pieces: seq<string>)
    ensures |pieces| >= 1
    ensures forall i :: 0 <= i < |pieces| ==> c !in pieces[i]
    decreases |s|
  {
    if s == [] then [""]
    else
      var rest := Split(s[1..], c);
      if s[0] == c then [""] + rest else [[s[0]] + rest[0]] + rest[1..]
  }

  /** Splitting loses nothing: joining the pieces with the character gives the string back. */
  lemma {:induction false} JoinSplit(s: string, c: char)
    ensures JoinWith([c], Split(s, c)) == s
    decreases |s|
  {
    if s != [] {
      var rest := Split(s[1..], c);
      JoinSplit(s[1..], c);
      if s[0] == c {
        assert ([""] + rest)[1..] == rest;
        assert s == [s[0]] + s[1..];
      } else {
        var pieces := [[s[0]] + rest[0]] + rest[1..];
        assert pieces[1..] == rest[1..];
        if |rest| > 1 {
          assert JoinWith([c], rest) == rest[0] + [c] + JoinWith([c], rest[1..]);
        }
        assert s == [s[0]] + s[1..];
      }
    }
  }

  /** Joining parts free of `c` with `c` and splitting at `c` gives the parts back. */
  lemma {:induction false} SplitJoin(parts: seq<string>, c: char)
    requires |parts| >= 1
    requires forall i :: 0 <= i < |parts| ==> c !in parts[i]
    ensures Split(JoinWith([c], parts), c) == parts
    decreases |parts|
  {
    if |parts| == 1 {
      SplitNoSeparator(parts[0], c);
    } else {
      SplitJoin(parts[1..], c);
      SplitAppend(parts[0], JoinWith([c], parts[1..]), c);
      assert parts == [parts[0]] + parts[1..];
    }
  }

  lemma {:induction false} SplitNoSeparator(s: string, c: char)
    requires c !in s
    ensures Split(s, c) == [s]
    decreases |s|
  {
    if s != [] {
      SplitNoSeparator(s[1..], c);
      assert s == [s[0]] + s[1..];
    }
  }

  /** A piece free of `c`, then `c`, then a tail: the piece is the first result of the split. */
  lemma {:induction false} SplitAppend(a: string, b: string, c: char)
    requires c !in a
    ensures Split(a + [c] + b, c) == [a] + Split(b, c)
    decreases |a|
  {
    if a == [] {
      assert ([c] + b)[1..] == b;
    } else {
      assert (a + [c] + b)[1..] == a[1..] + [c] + b;
      SplitAppend(a[1..], b, c);
      assert a == [a[0]] + a[1..];
    }
  }

  /** `s` without its leading whitespace. */
  function TrimLeft(s: string): (r: string)
    ensures |r| <= |s| && r == s[|s| - |r|..] && (r != [] ==> !IsSpace(r[0]))
    decreases |s|
  {
    if s != [] && IsSpace(s[0]) then TrimLeft(s[1..]) else s
  }

  /** `s` without its trailing whitespace. */
  function TrimRight(s: string): (r: string)
    ensures |r| <= |s| && r == s[..|r|] && (r != [] ==> !IsSpace(r[|r| - 1]))
    decreases |s|
  {
    if s != [] && IsSpace(s[|s| - 1]) then TrimRight(s[..|s| - 1]) else s
  }

  lemma {:induction false} TrimLeftSpaces(s: string)
    requires s != [] ==> !IsSpace(s[0])
    ensures TrimLeft([' '] + s) == s
  {
    assert ([' '] + s)[1..] == s;
  }

  /** Letters, digits and underscores only: the characters of an SQL identifier. */
  predicate IsWord(s: string) {
    forall i :: 0 <= i < |s| ==>
      ('a' <= s[i] <= 'z') || ('A' <= s[i] <= 'Z') || ('0' <= s[i] <= '9') || s[i] == '_'
  }

  predicate StartsWith(s: string, prefix: string) {
    |prefix| <= |s| && s[..|prefix|] == prefix
  }

  /** The longest prefix of `s` free of the characters in `stops`, and what follows it. */
  function Token(s: string, stops: set<char>): (r: (string, string))
    ensures r.0 + r.1 == s
    ensures forall i :: 0 <= i < |r.0| ==> r.0[i] !in stops
    ensures r.1 == [] || r.1[0] in stops
    decreases |s|
  {
    if s == [] || s[0] in stops then ("", s)
    else
      var r := Token(s[1..], stops);
      ([s[0]] + r.0, r.1)
  }

  /** Scanning a stop-free word followed by a stop (or nothing) yields exactly that word. */
  lemma {:induction false} TokenOf(word: string, rest: string, stops: set<char>)
    requires forall i :: 0 <= i < |word| ==> word[i] !in stops
    requires rest == [] || rest[0] in stops
    ensures Token(word + rest, stops) == (word, rest)
    decreases |word|
  {
    if word != [] {
      assert (word + rest)[0] == word[0];
      assert (word + rest)[1..] == word[1..] + rest;
      TokenOf(word[1..], rest, stops);
      assert word == [word[0]] + word[1..];
    } else {
      assert word + rest == rest;
    }
  }

  /** The pieces of `parts` joined by ", " when split at the commas: every piece after the first keeps its blank. */
  function Spaced(parts: seq<string>): (r: seq<string>)
    requires |parts| >= 1
    ensures |r| == |parts|
    ensures (forall i :: 0 <= i < |parts| ==> ',' !in parts[i]) ==> forall i :: 0 <= i < |r| ==> ',' !in r[i]
  {
    [parts[0]] + seq(|parts| - 1, i requires 0 <= i < |parts| - 1 => " " + parts[i + 1])
  }

  /** Joining with ", " is joining the spaced pieces with ",". */
  lemma {:induction false} JoinCommaSpace(parts: seq<string>)
    requires |parts| >= 1
    ensures JoinWith(", ", parts) == JoinWith([','], Spaced(parts))
    decreases |parts|
  {
    if |parts| > 1 {
      JoinCommaSpace(parts[1..]);
      var tail := Spaced(parts[1..]);
      assert Spaced(parts)[1..] == [" " + tail[0]] + tail[1..];
      JoinPrefixFirst(" ", tail);
    }
  }

  lemma {:induction false} JoinPrefixFirst(p: string, parts: seq<string>)
    requires |parts| >= 1
    ensures JoinWith([','], [p + parts[0]] + parts[1..]) == p + JoinWith([','], parts)
  {
    var ps := [p + parts[0]] + parts[1..];
    if |parts| > 1 {
      assert ps[1..] == parts[1..];
      calc {
        JoinWith([','], ps);
        ps[0] + [','] + JoinWith([','], ps[1..]);
        p + (parts[0] + [','] + JoinWith([','], parts[1..]));
        p + JoinWith([','], parts);
      }
    } else {
      assert ps == [p + parts[0]];
    }
  }

  /** Splitting a ", "-joined list of comma-free parts at its commas gives the spaced parts. */
  lemma SplitCommaSpace(parts: seq<string>)
    requires |parts| >= 1
    requires forall i :: 0 <= i < |parts| ==> ',' !in parts[i]
    ensures Split(JoinWith(", ", parts), ',') == Spaced(parts)
  {
    JoinCommaSpace(parts);
    var sp := Spaced(parts);
    forall i | 0 <= i < |sp|
      ensures ',' !in sp[i]
    {
      if i > 0 {
        assert sp[i] == " " + parts[i];
      }
    }
    SplitJoin(sp, ',');
  }

  predicate EndsWith(s: string, suffix: string) {
    |suffix| <= |s| && s[|s| - |suffix|..] == suffix
  }

  /** The last blank-free word of `s`, and everything before it. */
  function LastWord(s: string): (r: (string, string))
    ensures r.0 + r.1 == s
    ensures ' ' !in r.1
    ensures r.0 == [] || r.0[|r.0| - 1] == ' '
    decreases |s|
  {
    if s == [] || s[|s| - 1] == ' ' then (s, "")
    else
      var r := LastWord(s[..|s| - 1]);
      assert s == r.0 + r.1 + [s[|s| - 1]];
      (r.0, r.1 + [s[|s| - 1]])
  }

  /** A blank-free word after a blank (or at the start) is the last word. */
  lemma {:induction false} LastWordOf(head: string, word: string)
    requires ' ' !in word
    requires head == [] || head[|head| - 1] == ' '
    ensures LastWord(head + word) == (head, word)
    decreases |word|
  {
    if word != [] {
      var w := word[..|word| - 1];
      assert (head + word)[..|head + word| - 1] == head + w;
      LastWordOf(head, w);
      assert word == w + [word[|word| - 1]];
    } else {
      assert head + word == head;
    }
  }
}
