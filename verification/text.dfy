/** The Foundation string operations the Vim sessions rely on, on strings
    as sequences of `char`: trimming, `replacingOccurrences` of one character,
    `components(separatedBy:)`, `joined(separator:)`, `Int(_:)` and integer
    interpolation. */
module Text {
  import opened Wrappers

  // ---------------------------------------------------------- character sets

  /** `CharacterSet.whitespaces`: the space separators (general category Zs)
      and the tab. */
  predicate IsWhitespace(c: char) {
    c == '\t' || c == ' ' || c == '\U{00A0}' || c == '\U{1680}' || ('\U{2000}' <= c <= '\U{200A}')
    || c == '\U{202F}' || c == '\U{205F}' || c == '\U{3000}'
  }

  /** `CharacterSet.newlines`: U+000A to U+000D, U+0085, U+2028 and U+2029. */
  predicate IsNewline(c: char) {
    ('\n' <= c <= '\r') || c == '\U{0085}' || c == '\U{2028}' || c == '\U{2029}'
  }

  /** The newline characters as a set, for splitting. */
  const NEWLINES: set<char> := {'\n', '\U{000B}', '\U{000C}', '\r', '\U{0085}', '\U{2028}', '\U{2029}'}

  lemma NewlinesAreNewlines(c: char)
    ensures c in NEWLINES <==> IsNewline(c)
  {
  }

  /** `CharacterSet.whitespacesAndNewlines`. */
  predicate IsWhitespaceOrNewline(c: char) {
    IsWhitespace(c) || IsNewline(c)
  }

  // ---------------------------------------------------------------- trimming

  function TrimStart(s: string, drop: char -> bool): (r: string)
    ensures |r| <= |s| && r == s[|s| - |r|..]
    ensures |r| > 0 ==> !drop(r[0])
    ensures forall i :: 0 <= i < |s| - |r| ==> drop(s[i])
  {
    if |s| > 0 && drop(s[0]) then
      var r := TrimStart(s[1..], drop);
      assert s[1..][|s| - 1 - |r|..] == s[|s| - |r|..];
      assert forall i :: 1 <= i < |s| - |r| ==> s[i] == s[1..][i - 1];
      r
    else s
  }

  function TrimEnd(s: string, drop: char -> bool): (r: string)
    ensures |r| <= |s| && r == s[..|r|]
    ensures |r| > 0 ==> !drop(r[|r| - 1])
    ensures forall i :: |r| <= i < |s| ==> drop(s[i])
  {
    if |s| > 0 && drop(s[|s| - 1]) then
      var r := TrimEnd(s[..|s| - 1], drop);
      assert s[..|s| - 1][..|r|] == s[..|r|];
      r
    else s
  }

  /** How many dropped characters lead `s`. */
  function Lead(s: string, drop: char -> bool): (n: nat)
    ensures n <= |s|
    ensures forall k :: 0 <= k < n ==> drop(s[k])
    ensures n < |s| ==> !drop(s[n])
  {
    |s| - |TrimStart(s, drop)|
  }

  /** `trimmingCharacters(in:)`: the longest slice of `s` that neither starts
      nor ends with a dropped character. */
  function Trim(s: string, drop: char -> bool): (r: string)
    ensures Lead(s, drop) + |r| <= |s| && r == s[Lead(s, drop)..Lead(s, drop) + |r|]
    ensures forall k :: Lead(s, drop) + |r| <= k < |s| ==> drop(s[k])
    ensures |r| > 0 ==> !drop(r[0]) && !drop(r[|r| - 1])
  {
    var a := TrimStart(s, drop);
    var r := TrimEnd(a, drop);
    var i := |s| - |a|;
    assert i == Lead(s, drop);
    assert r == a[..|r|] && a == s[i..];
    assert r == s[i..i + |r|];
    assert forall k :: i + |r| <= k < |s| ==> s[k] == a[k - i];
    r
  }

  /** A text made only of dropped characters trims to nothing. */
  lemma TrimAllDropped(s: string, drop: char -> bool)
    requires forall k :: 0 <= k < |s| ==> drop(s[k])
    ensures Trim(s, drop) == ""
  {
    assert Lead(s, drop) == |s|;
  }

  /** Trimming keeps only characters of the text. */
  lemma TrimKeeps(s: string, drop: char -> bool)
    ensures forall x :: x in Trim(s, drop) ==> x in s
  {
    var r, n := Trim(s, drop), Lead(s, drop);
    forall x | x in r ensures x in s {
      var k :| 0 <= k < |r| && r[k] == x;
      assert s[n + k] == x;
    }
  }

  /** Trimming twice is trimming once. */
  lemma TrimIdempotent(s: string, drop: char -> bool)
    ensures Trim(Trim(s, drop), drop) == Trim(s, drop)
  {
    var r := Trim(s, drop);
    if |r| > 0 {
      assert TrimStart(r, drop) == r;
      assert TrimEnd(r, drop) == r;
    }
  }

  /** `trimmingCharacters(in: .whitespacesAndNewlines)`. */
  function TrimBlank(s: string): (r: string)
    ensures |r| <= |s|
    ensures |r| > 0 ==> !IsWhitespaceOrNewline(r[0]) && !IsWhitespaceOrNewline(r[|r| - 1])
  {
    Trim(s, IsWhitespaceOrNewline)
  }

  /** `trimmingCharacters(in: .whitespaces)`. */
  function TrimSpaces(s: string): (r: string)
    ensures |r| <= |s|
    ensures |r| > 0 ==> !IsWhitespace(r[0]) && !IsWhitespace(r[|r| - 1])
  {
    Trim(s, IsWhitespace)
  }

  /** Trimming strips exactly the padding around a string that neither
      starts nor ends with a dropped character. */
  lemma TrimPadded(pre: string, s: string, post: string, drop: char -> bool)
    requires |s| > 0 && !drop(s[0]) && !drop(s[|s| - 1])
    requires forall i :: 0 <= i < |pre| ==> drop(pre[i])
    requires forall i :: 0 <= i < |post| ==> drop(post[i])
    ensures Trim(pre + s + post, drop) == s
  {
    TrimStartPadded(pre, s + post, drop);
    assert pre + s + post == pre + (s + post);
    TrimEndPadded(s, post, drop);
  }

  lemma {:induction false} TrimStartPadded(pre: string, s: string, drop: char -> bool)
    requires |s| > 0 && !drop(s[0])
    requires forall i :: 0 <= i < |pre| ==> drop(pre[i])
    ensures TrimStart(pre + s, drop) == s
  {
    if |pre| > 0 {
      assert (pre + s)[1..] == pre[1..] + s;
      TrimStartPadded(pre[1..], s, drop);
    } else {
      assert pre + s == s;
    }
  }

  lemma {:induction false} TrimEndPadded(s: string, post: string, drop: char -> bool)
    requires |s| > 0 && !drop(s[|s| - 1])
    requires forall i :: 0 <= i < |post| ==> drop(post[i])
    ensures TrimEnd(s + post, drop) == s
  {
    if |post| > 0 {
      assert (s + post)[..|s + post| - 1] == s + post[..|post| - 1];
      TrimEndPadded(s, post[..|post| - 1], drop);
    } else {
      assert s + post == s;
    }
  }

  // ----------------------------------------------------------- replacement

  /** `replacingOccurrences(of: String(c), with: rep)`. */
  function Replace(s: string, c: char, rep: string): (r: string)
    ensures |r| >= |s| - Count(s, c)
    ensures c !in s ==> r == s
  {
    if |s| == 0 then ""
    else (if s[0] == c then rep else [s[0]]) + Replace(s[1..], c, rep)
  }

  /** The number of occurrences of `c` in `s`. */
  function Count(s: string, c: char): (n: nat)
    ensures n <= |s|
    ensures n == 0 <==> c !in s
  {
    if |s| == 0 then 0 else (if s[0] == c then 1 else 0) + Count(s[1..], c)
  }

  /** Replacing works piecewise over concatenation. */
  lemma {:induction false} ReplaceAppend(a: string, b: string, c: char, rep: string)
    ensures Replace(a + b, c, rep) == Replace(a, c, rep) + Replace(b, c, rep)
  {
    if |a| == 0 {
      assert a + b == b;
    } else {
      var head := if a[0] == c then rep else [a[0]];
      ReplaceHead(a, b, c, rep);
      ReplaceAppend(a[1..], b, c, rep);
      Reassociate(head, Replace(a[1..], c, rep), Replace(b, c, rep));
    }
  }

  lemma ReplaceHead(a: string, b: string, c: char, rep: string)
    requires |a| > 0
    ensures Replace(a + b, c, rep) == (if a[0] == c then rep else [a[0]]) + Replace(a[1..] + b, c, rep)
  {
    assert (a + b)[0] == a[0];
    assert (a + b)[1..] == a[1..] + b;
  }

  lemma Reassociate(x: string, y: string, z: string)
    ensures x + (y + z) == (x + y) + z
  {
  }

  /** Replacing `c` by two characters lengthens the text by one per `c`. */
  lemma {:induction false} ReplaceByPairLength(s: string, c: char, rep: string)
    requires |rep| == 2
    ensures |Replace(s, c, rep)| == |s| + Count(s, c)
  {
    if |s| > 0 {
      ReplaceByPairLength(s[1..], c, rep);
    }
  }

  /** Replacing `c` by a string without `c` leaves no `c` behind. */
  lemma {:induction false} ReplaceRemoves(s: string, c: char, rep: string)
    requires c !in rep
    ensures c !in Replace(s, c, rep)
  {
    if |s| > 0 {
      ReplaceRemoves(s[1..], c, rep);
    }
  }

  /** `replacingOccurrences(of: String(c), with: "")`. */
  function Remove(s: string, c: char): (r: string)
    ensures c !in r
    ensures forall x :: x in r <==> x in s && x != c
  {
    if |s| == 0 then ""
    else if s[0] == c then Remove(s[1..], c)
    else [s[0]] + Remove(s[1..], c)
  }

  lemma {:induction false} RemoveIsReplace(s: string, c: char)
    ensures Remove(s, c) == Replace(s, c, "")
  {
    if |s| > 0 {
      RemoveIsReplace(s[1..], c);
    }
  }

  /** Removing a character from a concatenation removes it from each part. */
  lemma RemoveAppend(a: string, b: string, c: char)
    ensures Remove(a + b, c) == Remove(a, c) + Remove(b, c)
  {
    RemoveIsReplace(a + b, c);
    RemoveIsReplace(a, c);
    RemoveIsReplace(b, c);
    ReplaceAppend(a, b, c, "");
  }

  /** Removing an absent character changes nothing. */
  lemma RemoveAbsent(s: string, c: char)
    requires c !in s
    ensures Remove(s, c) == s
  {
    RemoveIsReplace(s, c);
  }

  // ------------------------------------------------------- splitting, joining

  /** `components(separatedBy:)` for a set of separator characters: the
      pieces between separators, always at least one. */
  function Split(s: string, seps: set<char>): (r: seq<string>)
    ensures |r| >= 1
    ensures forall i, k :: 0 <= i < |r| && 0 <= k < |r[i]| ==> r[i][k] !in seps
  {
    if |s| == 0 then [""]
    else
      var rest := Split(s[1..], seps);
      if s[0] in seps then [""] + rest
      else [[s[0]] + rest[0]] + rest[1..]
  }

  /** `joined(separator:)`. */
  function Join(parts: seq<string>, sep: string): (r: string)
    ensures |parts| == 0 ==> r == ""
    ensures |parts| == 1 ==> r == parts[0]
  {
    if |parts| == 0 then "" else if |parts| == 1 then parts[0] else parts[0] + sep + Join(parts[1..], sep)
  }

  /** A string without separators is one piece. */
  lemma {:induction false} SplitNoSeparator(s: string, seps: set<char>)
    requires forall k :: 0 <= k < |s| ==> s[k] !in seps
    ensures Split(s, seps) == [s]
  {
    if |s| > 0 {
      SplitNoSeparator(s[1..], seps);
      assert [s[0]] + s[1..] == s;
    }
  }

  /** A character in neither the pieces nor the separator is not in the join. */
  lemma {:induction false} JoinFree(parts: seq<string>, sep: string, c: char)
    requires c !in sep && forall i :: 0 <= i < |parts| ==> c !in parts[i]
    ensures c !in Join(parts, sep)
  {
    if |parts| > 1 {
      JoinFree(parts[1..], sep, c);
    }
  }

  /** Joining the pieces with the one separator character gives back the
      string. */
  lemma {:induction false} JoinSplit(s: string, c: char)
    ensures Join(Split(s, {c}), [c]) == s
  {
    if |s| > 0 {
      JoinSplit(s[1..], c);
      var rest := Split(s[1..], {c});
      if s[0] == c {
        assert Split(s, {c}) == [""] + rest;
        assert ([""] + rest)[1..] == rest;
      } else {
        var r := Split(s, {c});
        assert r == [[s[0]] + rest[0]] + rest[1..];
        if |rest| > 1 {
          assert r[1..] == rest[1..];
          assert Join(rest, [c]) == rest[0] + [c] + Join(rest[1..], [c]);
        }
      }
    }
  }

  /** Splitting a join of separator-free pieces gives back the pieces, when
      the joining character is one of the separators. */
  lemma {:induction false} SplitJoin(parts: seq<string>, c: char, seps: set<char>)
    requires |parts| >= 1 && c in seps
    requires forall i, k :: 0 <= i < |parts| && 0 <= k < |parts[i]| ==> parts[i][k] !in seps
    ensures Split(Join(parts, [c]), seps) == parts
  {
    if |parts| == 1 {
      SplitPiece(parts[0], seps, []);
      assert parts[0] + [] == parts[0];
    } else {
      SplitJoin(parts[1..], c, seps);
      var tail := [c] + Join(parts[1..], [c]);
      assert Join(parts, [c]) == parts[0] + tail;
      assert tail[0] == c && tail[1..] == Join(parts[1..], [c]);
      assert Split(tail, seps) == [""] + parts[1..];
      SplitPiece(parts[0], seps, tail);
      assert parts[0] + "" == parts[0];
      assert [parts[0]] + parts[1..] == parts;
    }
  }

  /** A separator-free piece in front glues onto the first piece. */
  lemma {:induction false} SplitPiece(piece: string, seps: set<char>, tail: string)
    requires forall k :: 0 <= k < |piece| ==> piece[k] !in seps
    ensures var r := Split(piece + tail, seps);
            var t := Split(tail, seps);
            r == [piece + t[0]] + t[1..]
  {
    if |piece| > 0 {
      assert (piece + tail)[1..] == piece[1..] + tail;
      assert (piece + tail)[0] == piece[0];
      SplitPiece(piece[1..], seps, tail);
      assert [piece[0]] + (piece[1..] + Split(tail, seps)[0]) == piece + Split(tail, seps)[0];
    } else {
      assert piece + tail == tail;
      var t := Split(tail, seps);
      assert t == [t[0]] + t[1..];
      assert piece + t[0] == t[0];
    }
  }

  // ---------------------------------------------------------------- integers

  const INT64_MIN: int := -0x8000_0000_0000_0000
  const INT64_MAX: int := 0x7FFF_FFFF_FFFF_FFFF

  predicate IsDigit(c: char) {
    '0' <= c <= '9'
  }

  function DigitValue(c: char): nat
    requires IsDigit(c)
  {
    c as int - '0' as int
  }

  function DigitChar(d: nat): (c: char)
    requires d < 10
    ensures IsDigit(c) && DigitValue(c) == d
  {
    ('0' as int + d) as char
  }

  /** The decimal digits of `n`, without leading zeros. */
  function NatToString(n: nat): (r: string)
    ensures |r| >= 1 && forall i :: 0 <= i < |r| ==> IsDigit(r[i])
    decreases n
  {
    if n < 10 then [DigitChar(n)] else NatToString(n / 10) + [DigitChar(n % 10)]
  }

  /** String interpolation of an `Int`. */
  function IntToString(n: int): (r: string)
    ensures |r| >= 1
  {
    if n < 0 then "-" + NatToString(-n) else NatToString(n)
  }

  /** The value of a string of digits. */
  function DigitsValue(s: string): nat
    requires forall i :: 0 <= i < |s| ==> IsDigit(s[i])
  {
    if |s| == 0 then 0 else DigitsValue(s[..|s| - 1]) * 10 + DigitValue(s[|s| - 1])
  }

  predicate AllDigits(s: string) {
    |s| >= 1 && forall i :: 0 <= i < |s| ==> IsDigit(s[i])
  }

  /** `Int(_:)`: an optional sign and at least one digit, nothing else, and
      the value must fit in 64 bits. */
  function ParseInt(s: string): (r: Option<int>)
    ensures r.Some? ==> INT64_MIN <= r.value <= INT64_MAX
    ensures |s| == 0 ==> r.None?
  {
    var negative := |s| > 0 && s[0] == '-';
    var body := if |s| > 0 && (s[0] == '-' || s[0] == '+') then s[1..] else s;
    if !AllDigits(body) then None
    else
      var v: int := if negative then -(DigitsValue(body) as int) else DigitsValue(body);
      if INT64_MIN <= v <= INT64_MAX then Some(v) else None
  }

  lemma {:induction false} DigitsOfNat(n: nat)
    ensures DigitsValue(NatToString(n)) == n
    decreases n
  {
    if n >= 10 {
      DigitsOfNat(n / 10);
      var s := NatToString(n);
      assert s[..|s| - 1] == NatToString(n / 10);
    }
  }

  /** Printing a 64-bit integer and parsing it back gives the integer. */
  lemma ParseIntToString(n: int)
    requires INT64_MIN <= n <= INT64_MAX
    ensures ParseInt(IntToString(n)) == Some(n)
  {
    DigitsOfNat(if n < 0 then -n else n);
    if n < 0 {
      assert IntToString(n)[1..] == NatToString(-n);
    }
  }

  /** A printed integer is a minus sign or digits, ending in a digit. */
  lemma IntToStringChars(n: int)
    ensures var r := IntToString(n);
            (forall i :: 0 <= i < |r| ==> IsDigit(r[i]) || r[i] == '-') && IsDigit(r[|r| - 1])
  {
  }

  /** Text without a digit is no number. */
  lemma ParseIntNeedsDigit(s: string)
    requires forall k :: 0 <= k < |s| ==> !IsDigit(s[k])
    ensures ParseInt(s) == None
  {
    if |s| > 1 {
      assert !IsDigit(s[1]);
    }
  }

  /** Text that starts with neither a sign nor a digit is no number. */
  lemma ParseIntRejects(s: string)
    requires |s| >= 1 && !IsDigit(s[0]) && s[0] != '-' && s[0] != '+'
    ensures ParseInt(s) == None
  {
  }
}
