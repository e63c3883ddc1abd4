/** String operations the core relies on, with the meaning of Python's
    built-ins spelled out: `str.startswith`, `str.split(sep)` with a
    non-empty separator, the decimal form of an integer in an f-string, the
    case folding behind a case-insensitive `istartswith` lookup, the
    whitespace stripping of `str.strip()`, and code-point order, which the
    model takes as the order of a text column (the database's collation may
    order differently). */
module Strings {
  import opened Common

  predicate StartsWith(s: string, prefix: string) {
    |prefix| <= |s| && s[..|prefix|] == prefix
  }

  predicate EndsWith(s: string, suffix: string) {
    |suffix| <= |s| && s[|s| - |suffix|..] == suffix
  }

  /** `sep` occurs in `s` starting at index `j`. */
  predicate OccursAt(s: string, sep: string, j: int) {
    0 <= j && j + |sep| <= |s| && s[j..j + |sep|] == sep
  }

  ghost predicate Contains(s: string, sep: string) {
    exists j :: OccursAt(s, sep, j)
  }

  /** The first index at or after `from` where `sep` occurs (Python `str.find`). */
  function FindFrom(s: string, sep: string, from: nat): (r: Option<nat>)
    ensures r.Some? ==> from <= r.value && OccursAt(s, sep, r.value)
    ensures r.Some? ==> forall j :: from <= j < r.value ==> !OccursAt(s, sep, j)
    ensures r.None? ==> forall j :: from <= j ==> !OccursAt(s, sep, j)
    decreases |s| - from
  {
    if from + |sep| > |s| then None
    else if s[from..from + |sep|] == sep then Some(from)
    else FindFrom(s, sep, from + 1)
  }

  /** Python `s.split(sep)` for a non-empty separator: cut at every
      occurrence, scanning from the left. */
  function Split(s: string, sep: string): (parts: seq<string>)
    requires sep != []
    ensures parts != []
    decreases |s|
  {
    match FindFrom(s, sep, 0)
    case None => [s]
    case Some(i) => [s[..i]] + Split(s[i + |sep|..], sep)
  }

  /** Python `sep.join(parts)`. */
  function Join(parts: seq<string>, sep: string): string
    requires parts != []
    decreases |parts|
  {
    if |parts| == 1 then parts[0] else parts[0] + sep + Join(parts[1..], sep)
  }

  /** Splitting and joining again gives back the original string. */
  lemma {:induction false} SplitJoin(s: string, sep: string)
    requires sep != []
    ensures Join(Split(s, sep), sep) == s
    decreases |s|
  {
    match FindFrom(s, sep, 0)
    case None =>
    case Some(i) =>
      var rest := s[i + |sep|..];
      SplitJoin(rest, sep);
      var parts := Split(s, sep);
      assert parts == [s[..i]] + Split(rest, sep);
      assert parts[1..] == Split(rest, sep);
      assert s == s[..i] + s[i..i + |sep|] + rest;
  }

  lemma NotOccursInPrefix(s: string, sep: string, i: nat, j: int)
    requires sep != [] && i <= |s|
    requires OccursAt(s[..i], sep, j)
    ensures OccursAt(s, sep, j) && j < i
  {
    assert s[..i][j..j + |sep|] == s[j..j + |sep|];
  }

  /** No piece produced by `Split` contains the separator. */
  lemma {:induction false} SplitPartsFree(s: string, sep: string)
    requires sep != []
    ensures forall k :: 0 <= k < |Split(s, sep)| ==> !Contains(Split(s, sep)[k], sep)
    decreases |s|
  {
    match FindFrom(s, sep, 0)
    case None =>
      assert Split(s, sep) == [s];
    case Some(i) =>
      var rest := s[i + |sep|..];
      SplitPartsFree(rest, sep);
      var parts := Split(s, sep);
      assert parts[1..] == Split(rest, sep);
      forall j | OccursAt(s[..i], sep, j) ensures false {
        NotOccursInPrefix(s, sep, i, j);
      }
      forall k | 0 <= k < |parts| ensures !Contains(parts[k], sep) {
        if k > 0 {
          assert parts[k] == Split(rest, sep)[k - 1];
        }
      }
  }

  /** `Split` yields a single piece exactly when the separator is absent. */
  lemma SplitSingleIff(s: string, sep: string)
    requires sep != []
    ensures |Split(s, sep)| == 1 <==> !Contains(s, sep)
  {
    match FindFrom(s, sep, 0)
    case None =>
    case Some(i) =>
      assert |Split(s, sep)| >= 2;
  }

  /** Two separate occurrences of the separator cut the string into at
      least three pieces. */
  lemma SplitTwoOccurrences(s: string, sep: string, i: nat, j: nat)
    requires sep != []
    requires OccursAt(s, sep, i) && OccursAt(s, sep, j) && i + |sep| <= j
    ensures |Split(s, sep)| >= 3
  {
    var f := FindFrom(s, sep, 0);
    assert f.Some? && f.value <= i;
    var rest := s[f.value + |sep|..];
    var j' := j - f.value - |sep|;
    assert rest[j'..j' + |sep|] == s[j..j + |sep|];
    assert OccursAt(rest, sep, j');
    SplitSingleIff(rest, sep);
  }

  lemma {:induction false} JoinLast(parts: seq<string>, sep: string)
    requires |parts| >= 2
    ensures Join(parts, sep) == Join(parts[..|parts| - 1], sep) + sep + parts[|parts| - 1]
    decreases |parts|
  {
    if |parts| > 2 {
      JoinLast(parts[1..], sep);
      assert parts[1..][..|parts| - 2] == parts[..|parts| - 1][1..];
    }
  }

  /** Python `s.split(sep)[-1]`: the text after the last separator. */
  function LastPiece(s: string, sep: string): string
    requires sep != []
  {
    var parts := Split(s, sep);
    parts[|parts| - 1]
  }

  /** The last piece holds no separator, and it is either the whole string
      (no separator at all) or what follows the final separator. */
  lemma LastPieceProperties(s: string, sep: string)
    requires sep != []
    ensures !Contains(LastPiece(s, sep), sep)
    ensures !Contains(s, sep) ==> LastPiece(s, sep) == s
    ensures Contains(s, sep) ==> EndsWith(s, sep + LastPiece(s, sep))
  {
    var parts := Split(s, sep);
    SplitPartsFree(s, sep);
    assert !Contains(parts[|parts| - 1], sep);
    SplitSingleIff(s, sep);
    if |parts| >= 2 {
      LastPieceAfterSeparator(s, sep);
    }
  }

  lemma LastPieceAfterSeparator(s: string, sep: string)
    requires sep != []
    requires |Split(s, sep)| >= 2
    ensures EndsWith(s, sep + LastPiece(s, sep))
  {
    SplitJoin(s, sep);
    JoinEndsWithLast(Split(s, sep), sep);
  }

  lemma JoinEndsWithLast(parts: seq<string>, sep: string)
    requires |parts| >= 2
    ensures EndsWith(Join(parts, sep), sep + parts[|parts| - 1])
  {
    JoinLast(parts, sep);
    var head := Join(parts[..|parts| - 1], sep);
    var last := parts[|parts| - 1];
    EndsWithConcat(head, sep + last);
    assert head + (sep + last) == Join(parts, sep);
  }

  lemma EndsWithConcat(a: string, b: string)
    ensures EndsWith(a + b, b)
  {
    assert (a + b)[|a|..] == b;
  }

  /** `"".join(parts)`. */
  function Concat(parts: seq<string>): string
    decreases |parts|
  {
    if parts == [] then "" else Concat(parts[..|parts| - 1]) + parts[|parts| - 1]
  }

  lemma ConcatSnoc(a: seq<string>, x: string)
    ensures Concat(a + [x]) == Concat(a) + x
  {
    assert (a + [x])[..|a|] == a;
  }

  /** Joining two lists of pieces one after the other is joining each. */
  lemma {:induction false} ConcatAppend(a: seq<string>, b: seq<string>)
    ensures Concat(a + b) == Concat(a) + Concat(b)
    decreases |b|
  {
    if b == [] {
      assert a + b == a;
    } else {
      var b' := b[..|b| - 1];
      var x := b[|b| - 1];
      ConcatAppend(a, b');
      assert a + b == (a + b') + [x];
      assert b == b' + [x];
      ConcatSnoc(a + b', x);
      ConcatSnoc(b', x);
    }
  }

  // ---- decimal form of an integer, as f"{n}" prints it ----

  function DigitChar(d: nat): (c: char)
    requires d < 10
    ensures '0' <= c <= '9'
  {
    ('0' as int + d) as char
  }

  function DigitValue(c: char): (d: nat)
    requires '0' <= c <= '9'
    ensures d < 10
  {
    c as int - '0' as int
  }

  predicate AllDigits(s: string) {
    forall i :: 0 <= i < |s| ==> '0' <= s[i] <= '9'
  }

  function NatToString(n: nat): (s: string)
    ensures s != [] && AllDigits(s)
    decreases n
  {
    if n < 10 then [DigitChar(n)] else NatToString(n / 10) + [DigitChar(n % 10)]
  }

  function IntToString(n: int): string {
    if n < 0 then "-" + NatToString(-n) else NatToString(n)
  }

  function ParseNat(s: string): nat
    requires s != [] && AllDigits(s)
    decreases |s|
  {
    if |s| == 1 then DigitValue(s[0])
    else 10 * ParseNat(s[..|s| - 1]) + DigitValue(s[|s| - 1])
  }

  /** Python `int(s)` on a string without surrounding whitespace,
      restricted to an optional sign and ASCII decimal digits; `None` is the
      `ValueError` it raises for anything else. */
  function ParseInt(s: string): Option<int> {
    if s != [] && (s[0] == '-' || s[0] == '+') && s[1..] != [] && AllDigits(s[1..]) then
      var magnitude: int := ParseNat(s[1..]);
      Some(if s[0] == '-' then -magnitude else magnitude)
    else if s != [] && AllDigits(s) then Some(ParseNat(s))
    else None
  }

  /** A non-empty run of digits has no whitespace to strip and reads as its
      decimal value. */
  lemma DigitsParse(s: string)
    requires s != [] && AllDigits(s)
    ensures Strip(s) == s && ParseInt(s) == Some(ParseNat(s))
  {
    assert '0' <= s[0] <= '9' && '0' <= s[|s| - 1] <= '9';
    StripProperties(s);
  }

  /** A leading zero does not change the value of a decimal. */
  lemma {:induction false} ParseNatLeadingZero(s: string)
    requires s != [] && AllDigits(s)
    ensures AllDigits("0" + s) && ParseNat("0" + s) == ParseNat(s)
    decreases |s|
  {
    var z := "0" + s;
    assert z[..|z| - 1] == "0" + s[..|s| - 1];
    if |s| > 1 {
      ParseNatLeadingZero(s[..|s| - 1]);
    }
  }

  lemma {:induction false} NatToStringRoundTrip(n: nat)
    ensures ParseNat(NatToString(n)) == n
    decreases n
  {
    if n >= 10 {
      NatToStringRoundTrip(n / 10);
      var a := NatToString(n / 10);
      var s := NatToString(n);
      assert s[..|s| - 1] == a;
    }
  }

  /** The printed form of an integer reads back as that integer. */
  lemma IntToStringRoundTrip(n: int)
    ensures ParseInt(IntToString(n)) == Some(n)
  {
    if n < 0 {
      var t := NatToString(-n);
      NatToStringRoundTrip(-n);
      var s := "-" + t;
      assert IntToString(n) == s;
      assert s[0] == '-' && s[1..] == t;
      assert ParseInt(s) == Some(n);
    } else {
      var t := NatToString(n);
      NatToStringRoundTrip(n);
      assert IntToString(n) == t;
      assert '0' <= t[0] <= '9';
      assert ParseInt(t) == Some(ParseNat(t));
    }
  }

  // ---- case folding for case-insensitive lookups ----

  /** Lower-case form of a Latin or basic Cyrillic capital letter; every
      other character is left as it is. */
  function LowerChar(c: char): char {
    if 'A' <= c <= 'Z' then (c as int + 32) as char
    else if 'А' <= c <= 'Я' then (c as int + 32) as char
    else if c == 'Ё' then 'ё'
    else c
  }

  function Lower(s: string): (r: string)
    ensures |r| == |s|
    ensures forall i :: 0 <= i < |s| ==> r[i] == LowerChar(s[i])
  {
    seq(|s|, i requires 0 <= i < |s| => LowerChar(s[i]))
  }

  /** Django's `istartswith` lookup: prefix test after folding case on both sides. */
  predicate IStartsWith(s: string, prefix: string) {
    StartsWith(Lower(s), Lower(prefix))
  }

  lemma LowerIdempotent(s: string)
    ensures Lower(Lower(s)) == Lower(s)
  {
  }

  /** `istartswith` does not depend on the case in which the query is typed,
      holds of the empty query, and holds whenever the exact prefix does. */
  lemma IStartsWithProperties(s: string, prefix: string)
    ensures IStartsWith(s, prefix) <==> IStartsWith(s, Lower(prefix))
    ensures IStartsWith(s, "")
    ensures StartsWith(s, prefix) ==> IStartsWith(s, prefix)
  {
    LowerIdempotent(prefix);
    if StartsWith(s, prefix) {
      assert Lower(s)[..|prefix|] == Lower(prefix);
    }
  }

  // ---- whitespace stripping ----

  /** The characters `str.isspace` accepts: the ASCII controls from tab to
      carriage return, the four separators 0x1C to 0x1F, space, and the
      Unicode spaces and line separators. */
  predicate IsSpace(c: char) {
    ('\t' <= c <= '\r') || ('\U{1C}' <= c <= ' ') || c == '\U{85}' || c == '\U{A0}' || c == '\U{1680}'
    || ('\U{2000}' <= c <= '\U{200A}') || c == '\U{2028}' || c == '\U{2029}' || c == '\U{202F}'
    || c == '\U{205F}' || c == '\U{3000}'
  }

  /** Empty or whitespace only. */
  predicate Blank(s: string) {
    forall i :: 0 <= i < |s| ==> IsSpace(s[i])
  }

  /** `s.lstrip()` */
  function StripStart(s: string): string {
    if s != [] && IsSpace(s[0]) then StripStart(s[1..]) else s
  }

  /** `s.rstrip()` */
  function StripEnd(s: string): string {
    if s != [] && IsSpace(s[|s| - 1]) then StripEnd(s[..|s| - 1]) else s
  }

  /** `s.strip()` */
  function Strip(s: string): string {
    StripEnd(StripStart(s))
  }

  /** `lstrip` leaves the suffix after the leading whitespace, which starts
      with something else or is empty. */
  lemma {:induction false} StripStartShape(s: string)
    ensures |StripStart(s)| <= |s| && StripStart(s) == s[|s| - |StripStart(s)|..]
    ensures forall i :: 0 <= i < |s| - |StripStart(s)| ==> IsSpace(s[i])
    ensures StripStart(s) == [] || !IsSpace(StripStart(s)[0])
  {
    if s != [] && IsSpace(s[0]) {
      StripStartShape(s[1..]);
      forall i | 0 < i < |s| - |StripStart(s)| ensures IsSpace(s[i]) {
        assert s[i] == s[1..][i - 1];
      }
    }
  }

  /** `rstrip` leaves the prefix before the trailing whitespace, which ends
      with something else or is empty. */
  lemma {:induction false} StripEndShape(s: string)
    ensures |StripEnd(s)| <= |s| && StripEnd(s) == s[..|StripEnd(s)|]
    ensures forall i :: |StripEnd(s)| <= i < |s| ==> IsSpace(s[i])
    ensures StripEnd(s) == [] || !IsSpace(StripEnd(s)[|StripEnd(s)| - 1])
  {
    if s != [] && IsSpace(s[|s| - 1]) {
      StripEndShape(s[..|s| - 1]);
      forall i | |StripEnd(s)| <= i < |s| - 1 ensures IsSpace(s[i]) {
        assert s[i] == s[..|s| - 1][i];
      }
    }
  }

  /** Stripping leaves nothing exactly when the string is blank, stripping
      twice is stripping once, and a string with no whitespace at either
      end is its own strip. */
  lemma StripProperties(s: string)
    ensures Strip(s) == [] <==> Blank(s)
    ensures Strip(Strip(s)) == Strip(s)
    ensures s == [] || (!IsSpace(s[0]) && !IsSpace(s[|s| - 1])) ==> Strip(s) == s
  {
    var a := StripStart(s);
    var r := StripEnd(a);
    StripStartShape(s);
    StripEndShape(a);
    if r != [] {
      assert r[0] == a[0];
      assert Strip(r) == r by {
        assert StripStart(r) == r;
        assert StripEnd(r) == r;
      }
    }
    if s != [] && !IsSpace(s[0]) && !IsSpace(s[|s| - 1]) {
      assert a == s;
    }
  }

  /** One space on each side of a string without whitespace at its ends is
      stripped off again. */
  lemma StripSurroundingSpaces(d: string)
    requires d != [] && !IsSpace(d[0]) && !IsSpace(d[|d| - 1])
    ensures Strip(" " + d + " ") == d
  {
    var padded := " " + d + " ";
    assert padded[1..] == d + " ";
    assert StripStart(padded) == d + " ";
    assert (d + " ")[..|d|] == d;
    assert StripEnd(d + " ") == StripEnd(d);
  }

  /** Stripping removes whitespace only: any other character is in the
      stripped string exactly when it is in the original. */
  lemma StripKeepsNonSpace(s: string, c: char)
    requires !IsSpace(c)
    ensures c in Strip(s) <==> c in s
  {
    var a := StripStart(s);
    var r := StripEnd(a);
    StripStartShape(s);
    StripEndShape(a);
    if c in s {
      var i :| 0 <= i < |s| && s[i] == c;
      var j := i - (|s| - |a|);
      assert a[j] == c;
      assert r[j] == c;
    }
    if c in r {
      var j :| 0 <= j < |r| && r[j] == c;
      assert a[j] == c;
      assert s[j + (|s| - |a|)] == c;
    }
  }

  /** Case folding neither makes nor removes whitespace, so it commutes
      with stripping. */
  lemma {:induction false} StripStartLower(s: string)
    ensures StripStart(Lower(s)) == Lower(StripStart(s))
    decreases |s|
  {
    if s != [] {
      assert Lower(s)[0] == LowerChar(s[0]);
      assert Lower(s)[1..] == Lower(s[1..]);
      if IsSpace(s[0]) {
        StripStartLower(s[1..]);
      }
    }
  }

  lemma {:induction false} StripEndLower(s: string)
    ensures StripEnd(Lower(s)) == Lower(StripEnd(s))
    decreases |s|
  {
    if s != [] {
      assert Lower(s)[|s| - 1] == LowerChar(s[|s| - 1]);
      assert Lower(s)[..|s| - 1] == Lower(s[..|s| - 1]);
      if IsSpace(s[|s| - 1]) {
        StripEndLower(s[..|s| - 1]);
      }
    }
  }

  lemma StripLower(s: string)
    ensures Strip(Lower(s)) == Lower(Strip(s))
  {
    StripStartLower(s);
    StripEndLower(StripStart(s));
  }

  // ---- code-point order of strings ----

  predicate StrLe(a: string, b: string)
    decreases |a|
  {
    a == [] || (b != [] && (a[0] < b[0] || (a[0] == b[0] && StrLe(a[1..], b[1..]))))
  }

  lemma {:induction false} StrLeTotal(a: string, b: string)
    ensures StrLe(a, b) || StrLe(b, a)
    decreases |a|
  {
    if a != [] && b != [] && a[0] == b[0] {
      StrLeTotal(a[1..], b[1..]);
    }
  }
}
