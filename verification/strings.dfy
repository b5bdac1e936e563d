/** The PHP and JavaScript string primitives the organizer is built from
    (`str_replace`, `explode`/`implode`, `trim`, `str_starts_with`,
    `str_ends_with`, `str_contains`, `strtolower`, integer casts), written as
    functions over `seq<char>`, with the facts about them the rest of the model
    relies on. Case mapping is ASCII-only. */
module Strings {

  /** The characters PHP's `trim()` strips by default. */
  const PhpWhitespace: set<char> := {' ', '\t', '\n', '\r', '\0', '\U{0B}'}

  /** The characters PHP skips before the digits of an integer string. */
  const NumericWhitespace: set<char> := {' ', '\t', '\n', '\r', '\U{0B}', '\U{0C}'}

  // ---------------------------------------------------------------------------
  // Prefixes, suffixes and substrings
  // ---------------------------------------------------------------------------

  /** `str_starts_with(s, p)` */
  predicate IsPrefix(p: string, s: string)
  {
    |p| <= |s| && s[..|p|] == p
  }

  /** `str_ends_with(s, p)` */
  predicate IsSuffix(p: string, s: string)
  {
    |p| <= |s| && s[|s| - |p|..] == p
  }

  /** `sub` occurs in `s` starting at index `i`. */
  predicate OccursAt(s: string, sub: string, i: int)
  {
    0 <= i && i + |sub| <= |s| && s[i..i + |sub|] == sub
  }

  /** `str_contains(s, sub)`: the empty string is contained in every string. */
  predicate Contains(s: string, sub: string)
    decreases |s|
  {
    IsPrefix(sub, s) || (|s| > 0 && Contains(s[1..], sub))
  }

  /** A string occurring at some index is contained. */
  lemma {:induction false} ContainsAt(s: string, sub: string, i: int)
    requires OccursAt(s, sub, i)
    ensures Contains(s, sub)
    decreases i
  {
    if i > 0 {
      assert s[1..][i - 1..i - 1 + |sub|] == s[i..i + |sub|];
      ContainsAt(s[1..], sub, i - 1);
    }
  }

  /** A contained string occurs at some index. */
  lemma {:induction false} ContainsWitness(s: string, sub: string) returns (i: int)
    requires Contains(s, sub)
    ensures OccursAt(s, sub, i)
    decreases |s|
  {
    if IsPrefix(sub, s) {
      i := 0;
    } else {
      var j := ContainsWitness(s[1..], sub);
      assert s[1..][j..j + |sub|] == s[j + 1..j + 1 + |sub|];
      i := j + 1;
    }
  }

  lemma ContainsIff(s: string, sub: string)
    ensures Contains(s, sub) <==> exists i :: OccursAt(s, sub, i)
  {
    if Contains(s, sub) {
      var i := ContainsWitness(s, sub);
    }
    forall i | OccursAt(s, sub, i) ensures Contains(s, sub) {
      ContainsAt(s, sub, i);
    }
  }

  // ---------------------------------------------------------------------------
  // str_replace with one search string
  // ---------------------------------------------------------------------------

  /** `str_replace(from, to, s)`: every non-overlapping occurrence of `from`,
      scanned left to right, is replaced by `to`. An empty `from` leaves the
      subject unchanged, as PHP 8 does. */
  function ReplaceAll(s: string, from: string, to: string): (r: string)
    ensures forall c :: c in r ==> c in s || c in to
    ensures !Contains(s, from) ==> r == s
    decreases |s|
  {
    if |from| == 0 || |s| < |from| then s
    else if s[..|from|] == from then to + ReplaceAll(s[|from|..], from, to)
    else [s[0]] + ReplaceAll(s[1..], from, to)
  }

  /** Replacing a single character by a string without it removes that
      character entirely. */
  lemma {:induction false} ReplaceAllRemovesChar(s: string, c: char, to: string)
    requires c !in to
    ensures c !in ReplaceAll(s, [c], to)
    decreases |s|
  {
    if |s| >= 1 {
      ReplaceAllRemovesChar(s[1..], c, to);
      if s[..1] == [c] {
        assert s[1..] == s[|[c]|..];
      } else {
        assert s[0] != c by { assert s[..1] == [s[0]]; }
      }
    }
  }

  /** Dropping the first character of `a` keeps `from` from starting inside
      what is left of it. */
  lemma NoOccurrenceInTail(a: string, b: string, from: string)
    requires |a| > 0
    requires forall i :: 0 <= i < |a| ==> !OccursAt(a + b, from, i)
    ensures forall i :: 0 <= i < |a| - 1 ==> !OccursAt(a[1..] + b, from, i)
  {
    var s := a + b;
    assert s[1..] == a[1..] + b;
    forall i | 0 <= i < |a| - 1
      ensures !OccursAt(a[1..] + b, from, i)
    {
      assert !OccursAt(s, from, i + 1);
      if i + |from| <= |a[1..] + b| {
        assert s[1..][i..i + |from|] == s[i + 1..i + 1 + |from|];
      }
    }
  }

  /** When no occurrence of `from` starts inside `a`, replacing in `a + b`
      copies `a` and replaces in `b`. */
  lemma {:induction false} ReplaceAllSkipsPrefix(a: string, b: string, from: string, to: string)
    requires |from| > 0
    requires forall i :: 0 <= i < |a| ==> !OccursAt(a + b, from, i)
    ensures ReplaceAll(a + b, from, to) == a + ReplaceAll(b, from, to)
    decreases |a|
  {
    if |a| == 0 {
      assert a + b == b;
    } else {
      var s := a + b;
      var a' := a[1..];
      assert !OccursAt(s, from, 0);
      assert s[1..] == a' + b;
      NoOccurrenceInTail(a, b, from);
      ReplaceAllSkipsPrefix(a', b, from, to);
      assert a == [a[0]] + a';
      if |s| >= |from| {
        assert ReplaceAll(s, from, to) == [s[0]] + ReplaceAll(a' + b, from, to);
      }
    }
  }

  /** Replacing at the head of the subject: `from` is consumed in one step. */
  lemma ReplaceAllAtHead(from: string, rest: string, to: string)
    requires |from| > 0
    ensures ReplaceAll(from + rest, from, to) == to + ReplaceAll(rest, from, to)
  {
    var s := from + rest;
    assert s[..|from|] == from;
    assert s[|from|..] == rest;
  }

  /** Replacing a string by itself changes nothing. */
  lemma {:induction false} ReplaceAllIdentity(s: string, from: string)
    ensures ReplaceAll(s, from, from) == s
    decreases |s|
  {
    if |from| > 0 && |s| >= |from| {
      if s[..|from|] == from {
        ReplaceAllIdentity(s[|from|..], from);
        assert s == from + s[|from|..];
      } else {
        ReplaceAllIdentity(s[1..], from);
        assert s == [s[0]] + s[1..];
      }
    }
  }

  /** A string whose first character does not occur in `s` is not contained in it. */
  lemma {:induction false} NotContainsFirstChar(s: string, sub: string)
    requires |sub| > 0 && sub[0] !in s
    ensures !Contains(s, sub)
    decreases |s|
  {
    if |sub| <= |s| {
      assert s[..|sub|][0] == s[0];
    }
    if |s| > 0 {
      NotContainsFirstChar(s[1..], sub);
    }
  }

  /** Replacing a character by a marker and the marker back restores the
      string, when the marker starts with a character the string lacks. */
  lemma {:induction false} ReplaceAllUndo(s: string, c: char, marker: string)
    requires |marker| > 0 && marker[0] !in s && marker[0] != c
    ensures ReplaceAll(ReplaceAll(s, [c], marker), marker, [c]) == s
    decreases |s|
  {
    if |s| > 0 {
      ReplaceAllUndo(s[1..], c, marker);
      var rest := ReplaceAll(s[1..], [c], marker);
      if s[..1] == [c] {
        assert s[1..] == s[|[c]|..];
        ReplaceAllAtHead(marker, rest, [c]);
        assert s == [c] + s[1..];
      } else {
        assert s[0] != c by { assert s[..1] == [s[0]]; }
        var t := [s[0]] + rest;
        assert ReplaceAll(s, [c], marker) == t;
        if |t| >= |marker| {
          assert t[..|marker|][0] == s[0];
          assert t[1..] == rest;
        } else {
          assert |rest| < |marker|;
        }
        assert s == [s[0]] + s[1..];
      }
    }
  }

  // ---------------------------------------------------------------------------
  // explode / implode
  // ---------------------------------------------------------------------------

  /** Index of the first `c` in `s`. */
  function IndexOf(s: string, c: char): (i: nat)
    requires c in s
    ensures i < |s| && s[i] == c && c !in s[..i]
  {
    if s[0] == c then 0
    else
      assert c in s[1..] by { var k :| 0 <= k < |s| && s[k] == c; assert s[1..][k - 1] == c; }
      var j := IndexOf(s[1..], c);
      assert s[..j + 1] == [s[0]] + s[1..][..j];
      j + 1
  }

  /** `implode(sep, parts)` */
  function Join(parts: seq<string>, sep: string): string
  {
    if |parts| == 0 then ""
    else if |parts| == 1 then parts[0]
    else parts[0] + sep + Join(parts[1..], sep)
  }

  /** `explode(c, s)` for a one-character delimiter: the pieces between the
      delimiters, always at least one. */
  function Split(s: string, c: char): (r: seq<string>)
    ensures |r| >= 1
    ensures forall i :: 0 <= i < |r| ==> c !in r[i]
    ensures Join(r, [c]) == s
    decreases |s|
  {
    if c in s then
      var i := IndexOf(s, c);
      var rest := Split(s[i + 1..], c);
      assert s == s[..i] + [c] + s[i + 1..];
      [s[..i]] + rest
    else [s]
  }

  /** Splitting the join of delimiter-free pieces gives the pieces back. */
  lemma {:induction false} SplitJoin(parts: seq<string>, c: char)
    requires |parts| >= 1
    requires forall i :: 0 <= i < |parts| ==> c !in parts[i]
    ensures Split(Join(parts, [c]), c) == parts
    decreases |parts|
  {
    if |parts| > 1 {
      var s := Join(parts, [c]);
      var tail := Join(parts[1..], [c]);
      assert s == parts[0] + [c] + tail;
      assert s[|parts[0]|] == c;
      assert s[..|parts[0]|] == parts[0];
      var i := IndexOf(s, c);
      assert i >= |parts[0]| by {
        assert forall k :: 0 <= k < |parts[0]| ==> s[k] == parts[0][k];
      }
      assert i <= |parts[0]| by {
        assert forall k :: 0 <= k < i ==> s[..i][k] == s[k];
      }
      assert s[..i] == parts[0];
      assert s[i + 1..] == tail;
      SplitJoin(parts[1..], c);
      assert parts == [parts[0]] + parts[1..];
    }
  }

  // ---------------------------------------------------------------------------
  // trim
  // ---------------------------------------------------------------------------

  /** `ltrim(s, cs)` */
  function TrimLeft(s: string, cs: set<char>): (r: string)
    ensures IsSuffix(r, s)
    ensures |r| > 0 ==> r[0] !in cs
    ensures forall k :: 0 <= k < |s| - |r| ==> s[k] in cs
    decreases |s|
  {
    if |s| > 0 && s[0] in cs then TrimLeft(s[1..], cs) else s
  }

  /** `rtrim(s, cs)` */
  function TrimRight(s: string, cs: set<char>): (r: string)
    ensures IsPrefix(r, s)
    ensures |r| > 0 ==> r[|r| - 1] !in cs
    ensures forall k :: |r| <= k < |s| ==> s[k] in cs
    decreases |s|
  {
    if |s| > 0 && s[|s| - 1] in cs then TrimRight(s[..|s| - 1], cs) else s
  }

  /** `trim(s, cs)`: the longest middle part of `s` that neither starts nor
      ends with a character of `cs`. */
  function Trim(s: string, cs: set<char>): string
  {
    TrimRight(TrimLeft(s, cs), cs)
  }

  predicate Trimmed(s: string, cs: set<char>)
  {
    |s| == 0 || (s[0] !in cs && s[|s| - 1] !in cs)
  }

  lemma TrimResult(s: string, cs: set<char>)
    ensures Trimmed(Trim(s, cs), cs)
    ensures forall c :: c in Trim(s, cs) ==> c in s
  {
    var l := TrimLeft(s, cs);
    var r := TrimRight(l, cs);
    if |r| > 0 {
      assert r[0] == l[0];
    }
    forall c | c in r ensures c in s {
      var k :| 0 <= k < |r| && r[k] == c;
      assert l[k] == c;
      assert s[|s| - |l| + k] == c;
    }
  }

  /** Trimming a string that is already trimmed changes nothing. */
  lemma TrimOfTrimmed(s: string, cs: set<char>)
    requires Trimmed(s, cs)
    ensures Trim(s, cs) == s
  {
  }

  /** `explode(delim, s)` with every piece trimmed and empty pieces dropped,
      preceded by PHP's `empty()` test on the subject: the behaviour of the
      `ConvertHelper::explodeTrim` helper. */
  function ExplodeTrim(delim: char, s: string): (r: seq<string>)
    ensures forall i :: 0 <= i < |r| ==> |r[i]| > 0 && delim !in r[i] && Trimmed(r[i], PhpWhitespace)
  {
    if PhpEmpty(s) then [] else TrimAndDrop(Split(s, delim), delim)
  }

  function TrimAndDrop(pieces: seq<string>, delim: char): (r: seq<string>)
    requires forall i :: 0 <= i < |pieces| ==> delim !in pieces[i]
    ensures |r| <= |pieces|
    ensures forall i :: 0 <= i < |r| ==> |r[i]| > 0 && delim !in r[i] && Trimmed(r[i], PhpWhitespace)
  {
    if |pieces| == 0 then []
    else
      var t := Trim(pieces[0], PhpWhitespace);
      TrimResult(pieces[0], PhpWhitespace);
      if |t| == 0 then TrimAndDrop(pieces[1..], delim)
      else [t] + TrimAndDrop(pieces[1..], delim)
  }

  lemma {:induction false} TrimAndDropClean(pieces: seq<string>, delim: char)
    requires forall i :: 0 <= i < |pieces| ==> delim !in pieces[i] && |pieces[i]| > 0 && Trimmed(pieces[i], PhpWhitespace)
    ensures TrimAndDrop(pieces, delim) == pieces
    decreases |pieces|
  {
    if |pieces| > 0 {
      TrimOfTrimmed(pieces[0], PhpWhitespace);
      TrimAndDropClean(pieces[1..], delim);
      assert pieces == [pieces[0]] + pieces[1..];
    }
  }

  /** Joining clean tokens with the delimiter and exploding again gives the
      tokens back. */
  lemma ExplodeTrimJoin(parts: seq<string>, delim: char)
    requires |parts| >= 1 && parts != ["0"]
    requires forall i :: 0 <= i < |parts| ==> |parts[i]| > 0 && delim !in parts[i] && Trimmed(parts[i], PhpWhitespace)
    ensures ExplodeTrim(delim, Join(parts, [delim])) == parts
  {
    var s := Join(parts, [delim]);
    SplitJoin(parts, delim);
    TrimAndDropClean(parts, delim);
    if |parts| == 1 {
      assert s == parts[0];
    } else {
      assert s == parts[0] + [delim] + Join(parts[1..], [delim]);
      assert |s| > 1;
    }
  }

  // ---------------------------------------------------------------------------
  // PHP truthiness and case mapping
  // ---------------------------------------------------------------------------

  /** PHP's `empty()` on a string: true for "" and for "0". */
  predicate PhpEmpty(s: string)
  {
    s == "" || s == "0"
  }

  function LowerChar(c: char): char
  {
    if 'A' <= c <= 'Z' then (c as int + 32) as char else c
  }

  /** C's `toupper` on ASCII. */
  function UpperChar(c: char): char
  {
    if 'a' <= c <= 'z' then (c as int - 32) as char else c
  }

  /** `strtolower` / `mb_strtolower` / JavaScript `toLowerCase`, on ASCII. */
  function ToLower(s: string): (r: string)
    ensures |r| == |s|
    ensures forall i :: 0 <= i < |s| ==> r[i] == LowerChar(s[i])
  {
    if |s| == 0 then [] else [LowerChar(s[0])] + ToLower(s[1..])
  }

  lemma ToLowerIdempotent(s: string)
    ensures ToLower(ToLower(s)) == ToLower(s)
  {
  }

  // ---------------------------------------------------------------------------
  // Integers as decimal text
  // ---------------------------------------------------------------------------

  predicate IsDigit(c: char)
  {
    '0' <= c <= '9'
  }

  predicate AllDigits(s: string)
  {
    forall i :: 0 <= i < |s| ==> IsDigit(s[i])
  }

  function DigitChar(d: nat): char
    requires d < 10
  {
    ('0' as int + d) as char
  }

  /** The decimal digits of `n`, without leading zeros. */
  function NatToString(n: nat): (r: string)
    ensures |r| > 0 && AllDigits(r)
    ensures '-' !in r && '$' !in r
    decreases n
  {
    if n < 10 then [DigitChar(n)] else NatToString(n / 10) + [DigitChar(n % 10)]
  }

  /** The value of a string of decimal digits. */
  function DigitsValue(ds: string): nat
    requires AllDigits(ds)
  {
    if |ds| == 0 then 0
    else DigitsValue(ds[..|ds| - 1]) * 10 + (ds[|ds| - 1] as int - '0' as int)
  }

  lemma {:induction false} NatToStringValue(n: nat)
    ensures DigitsValue(NatToString(n)) == n
    decreases n
  {
    if n >= 10 {
      var s := NatToString(n);
      NatToStringValue(n / 10);
      assert s[..|s| - 1] == NatToString(n / 10);
    }
  }

  /** `(string)$i` for an integer. */
  function IntToString(i: int): (r: string)
    ensures |r| > 0 && '$' !in r
  {
    if i < 0 then "-" + NatToString(-i) else NatToString(i)
  }

  /** The decimal text of an integer starts with '-' exactly when it is negative. */
  lemma {:induction false} IntToStringSign(a: int)
    ensures (IntToString(a)[0] == '-') == (a < 0)
  {
    if a >= 0 {
      assert IsDigit(NatToString(a)[0]);
    }
  }

  /** Different naturals have different decimal texts. */
  lemma NatToStringInjective(m: nat, n: nat)
    requires NatToString(m) == NatToString(n)
    ensures m == n
  {
    NatToStringValue(m);
    NatToStringValue(n);
  }

  lemma {:induction false} IntToStringInjective(a: int, b: int)
    requires IntToString(a) == IntToString(b)
    ensures a == b
  {
    IntToStringSign(a);
    IntToStringSign(b);
    if a < 0 {
      var sa := IntToString(a);
      assert sa == "-" + NatToString(-a) && IntToString(b) == "-" + NatToString(-b);
      assert sa[1..] == NatToString(-a) && sa[1..] == NatToString(-b);
      NatToStringInjective(-a, -b);
    } else {
      NatToStringInjective(a, b);
    }
  }

  /** The longest run of digits at the start of `s`. */
  function DigitPrefix(s: string): (r: string)
    ensures IsPrefix(r, s) && AllDigits(r)
    ensures |r| < |s| ==> !IsDigit(s[|r|])
  {
    if |s| > 0 && IsDigit(s[0]) then [s[0]] + DigitPrefix(s[1..]) else ""
  }

  lemma DigitPrefixOfDigits(s: string)
    requires AllDigits(s)
    ensures DigitPrefix(s) == s
  {
    if |s| > 0 {
      DigitPrefixOfDigits(s[1..]);
    }
  }

  /** The range of a PHP integer on a 64-bit platform. */
  const PhpIntMax: int := 0x7FFF_FFFF_FFFF_FFFF
  const PhpIntMin: int := -0x8000_0000_0000_0000

  type PhpInt = i: int | PhpIntMin <= i <= PhpIntMax

  /** A value out of range becomes the nearest bound, as PHP's cast of an
      overflowing numeric string does. */
  function Saturate(v: int): (r: PhpInt)
    ensures PhpIntMin <= v <= PhpIntMax ==> r == v
    ensures v > PhpIntMax ==> r == PhpIntMax
    ensures v < PhpIntMin ==> r == PhpIntMin
  {
    if v > PhpIntMax then PhpIntMax else if v < PhpIntMin then PhpIntMin else v
  }

  /** `(int)$s`: leading whitespace is skipped, an optional sign is read, and
      the value of the digits that follow is taken, saturated to the integer
      range; no digits read as 0. */
  function PhpIntCast(s: string): PhpInt
  {
    var t := TrimLeft(s, NumericWhitespace);
    if |t| > 0 && t[0] == '-' then Saturate(-(DigitsValue(DigitPrefix(t[1..])) as int))
    else if |t| > 0 && t[0] == '+' then Saturate(DigitsValue(DigitPrefix(t[1..])) as int)
    else Saturate(DigitsValue(DigitPrefix(t)) as int)
  }

  /** PHP's `is_numeric` restricted to integers: optional surrounding
      whitespace, an optional sign and at least one digit. */
  predicate IsIntegerString(s: string)
  {
    IsUnsignedIntegerString(WithoutSign(TrimLeft(s, NumericWhitespace)))
  }

  /** `t` without a leading sign character. */
  function WithoutSign(t: string): string
  {
    if |t| > 0 && (t[0] == '-' || t[0] == '+') then t[1..] else t
  }

  /** At least one digit, then only whitespace. */
  predicate IsUnsignedIntegerString(body: string)
  {
    var ds := DigitPrefix(body);
    |ds| > 0 && forall k :: |ds| <= k < |body| ==> body[k] in NumericWhitespace
  }

  lemma {:induction false} NatCast(n: nat)
    ensures PhpIntCast(NatToString(n)) == Saturate(n)
    ensures IsIntegerString(NatToString(n))
  {
    var s := NatToString(n);
    assert TrimLeft(s, NumericWhitespace) == s by { assert IsDigit(s[0]); }
    assert WithoutSign(s) == s by { assert IsDigit(s[0]); }
    DigitPrefixOfDigits(s);
    NatToStringValue(n);
  }

  lemma {:induction false} NegCast(n: nat)
    requires n > 0
    ensures PhpIntCast("-" + NatToString(n)) == Saturate(-(n as int))
    ensures IsIntegerString("-" + NatToString(n))
  {
    var s := "-" + NatToString(n);
    assert TrimLeft(s, NumericWhitespace) == s;
    assert s[1..] == NatToString(n);
    assert WithoutSign(s) == NatToString(n);
    DigitPrefixOfDigits(NatToString(n));
    NatToStringValue(n);
  }

  /** The decimal text of an integer has no upper-case letter to fold. */
  lemma IntToStringLower(i: int)
    ensures ToLower(IntToString(i)) == IntToString(i)
  {
    var s := IntToString(i);
    forall k | 0 <= k < |s| ensures LowerChar(s[k]) == s[k] {
      if i < 0 && k == 0 {
        assert s[0] == '-';
      } else if i < 0 {
        assert s[k] == NatToString(-i)[k - 1];
      } else {
        assert IsDigit(s[k]);
      }
    }
  }

  /** Casting the decimal text of an integer back gives the integer, or
      the nearest bound when it lies outside the PHP integer range. */
  lemma {:induction false} IntCastRoundTrip(i: int)
    ensures PhpIntCast(IntToString(i)) == Saturate(i)
    ensures IsIntegerString(IntToString(i))
  {
    if i < 0 {
      NegCast(-i);
    } else {
      NatCast(i);
    }
  }
}
