/**
  The pieces of Go's `strings` and `strconv` packages that the request engine relies on.
  A Go string is modelled as a sequence of characters; every string the engine compares or
  splits is ASCII text (URL paths, column names, SQL keywords), for which this agrees with Go's
  byte strings.
 */
module GoStrings {
  import opened Wrappers

  // ---------------------------------------------------------------------------------------
  // strings.HasPrefix / strings.Contains
  // ---------------------------------------------------------------------------------------

  /** strings.HasPrefix */
  predicate HasPrefix(s: string, prefix: string) {
    |prefix| <= |s| && s[..|prefix|] == prefix
  }

  /** strings.Contains: `sub` starts at some position of `s`. */
  predicate Contains(s: string, sub: string)
    decreases |s|
  {
    HasPrefix(s, sub) || (|s| > 0 && Contains(s[1..], sub))
  }

  /** `sub` occurs in `s` starting at index `i`. */
  ghost predicate OccursAt(s: string, sub: string, i: int) {
    0 <= i && i + |sub| <= |s| && s[i..i + |sub|] == sub
  }

  /** Contains agrees with the positional definition of a substring occurrence. */
  lemma {:induction false} ContainsIffOccurs(s: string, sub: string)
    ensures Contains(s, sub) <==> exists i :: OccursAt(s, sub, i)
    decreases |s|
  {
    if HasPrefix(s, sub) {
      assert OccursAt(s, sub, 0);
    } else if |s| > 0 {
      ContainsIffOccurs(s[1..], sub);
      if Contains(s[1..], sub) {
        var j :| OccursAt(s[1..], sub, j);
        assert s[j + 1..j + 1 + |sub|] == s[1..][j..j + |sub|];
        assert OccursAt(s, sub, j + 1);
      }
      if exists i :: OccursAt(s, sub, i) {
        var i :| OccursAt(s, sub, i);
        assert i != 0;
        assert s[1..][i - 1..i - 1 + |sub|] == s[i..i + |sub|];
        assert OccursAt(s[1..], sub, i - 1);
      }
    } else {
      assert forall i :: OccursAt(s, sub, i) ==> HasPrefix(s, sub);
    }
  }

  /** A string that contains `sub` is at least as long as `sub`. */
  lemma ContainsLength(s: string, sub: string)
    requires Contains(s, sub)
    ensures |sub| <= |s|
  {
    ContainsIffOccurs(s, sub);
  }

  // ---------------------------------------------------------------------------------------
  // strings.ToLower
  // ---------------------------------------------------------------------------------------

  /** unicode.ToLower restricted to ASCII letters. */
  function LowerRune(c: char): char {
    if 'A' <= c <= 'Z' then (c as int + 32) as char else c
  }

  /** strings.ToLower, rune by rune. */
  function ToLower(s: string): string {
    seq(|s|, i requires 0 <= i < |s| => LowerRune(s[i]))
  }

  /** Lowering a string keeps every occurrence of an already lower-case `sub`. */
  lemma LowerKeepsLowerOccurrence(s: string, sub: string)
    requires ToLower(sub) == sub
    requires Contains(s, sub)
    ensures Contains(ToLower(s), sub)
  {
    ContainsIffOccurs(s, sub);
    var i :| OccursAt(s, sub, i);
    assert ToLower(s)[i..i + |sub|] == ToLower(sub) by {
      forall k | 0 <= k < |sub|
        ensures ToLower(s)[i..i + |sub|][k] == ToLower(sub)[k]
      {
        assert s[i + k] == sub[k];
      }
    }
    assert OccursAt(ToLower(s), sub, i);
    ContainsIffOccurs(ToLower(s), sub);
  }

  // ---------------------------------------------------------------------------------------
  // strings.Split / strings.Join
  // ---------------------------------------------------------------------------------------

  /** strings.Split with a one-character separator: always at least one part. */
  function Split(s: string, sep: char): (parts: seq<string>)
    ensures |parts| >= 1
    ensures forall k :: 0 <= k < |parts| ==> sep !in parts[k]
    decreases |s|
  {
    if |s| == 0 then [""]
    else
      var rest := Split(s[1..], sep);
      if s[0] == sep then [""] + rest
      else [[s[0]] + rest[0]] + rest[1..]
  }

  /** strings.Join */
  function Join(parts: seq<string>, sep: string): string
    decreases |parts|
  {
    if |parts| == 0 then ""
    else if |parts| == 1 then parts[0]
    else parts[0] + sep + Join(parts[1..], sep)
  }

  /** Joining a non-empty list puts the first part, then the separator and the join of the rest. */
  lemma JoinCons(first: string, rest: seq<string>, sep: string)
    requires |rest| > 0
    ensures Join([first] + rest, sep) == first + sep + Join(rest, sep)
  {
    assert ([first] + rest)[1..] == rest;
  }

  /** Joining a list with one more part at the end adds the separator and that part. */
  lemma {:induction false} JoinSnoc(parts: seq<string>, last: string, sep: string)
    requires |parts| > 0
    ensures Join(parts + [last], sep) == Join(parts, sep) + sep + last
    decreases |parts|
  {
    if |parts| == 1 {
      assert (parts + [last])[1..] == [last];
    } else {
      JoinSnoc(parts[1..], last, sep);
      assert (parts + [last])[1..] == parts[1..] + [last];
    }
  }

  /** Joining the parts of a split gives back the original string. */
  lemma {:induction false} JoinSplit(s: string, sep: char)
    ensures Join(Split(s, sep), [sep]) == s
    decreases |s|
  {
    if |s| > 0 {
      JoinSplit(s[1..], sep);
      var rest := Split(s[1..], sep);
      if s[0] == sep {
        assert s == [sep] + s[1..];
      } else if |rest| == 1 {
        assert s == [s[0]] + s[1..];
      } else {
        var parts := Split(s, sep);
        assert parts[1..] == rest[1..];
        assert Join(parts, [sep]) == [s[0]] + rest[0] + [sep] + Join(rest[1..], [sep]);
        assert Join(rest, [sep]) == rest[0] + [sep] + Join(rest[1..], [sep]);
        assert s == [s[0]] + s[1..];
      }
    }
  }

  /** Splitting `a + [sep] + b` where `a` has no separator peels `a` off as the first part. */
  lemma {:induction false} SplitAtFirst(a: string, sep: char, b: string)
    requires sep !in a
    ensures Split(a + [sep] + b, sep) == [a] + Split(b, sep)
    decreases |a|
  {
    if |a| == 0 {
      assert a + [sep] + b == [sep] + b;
      assert ([sep] + b)[1..] == b;
    } else {
      SplitAtFirst(a[1..], sep, b);
      assert (a + [sep] + b)[1..] == a[1..] + [sep] + b;
      assert [a[0]] + a[1..] == a;
    }
  }

  /** A string without the separator splits into itself alone. */
  lemma {:induction false} SplitNoSeparator(a: string, sep: char)
    requires sep !in a
    ensures Split(a, sep) == [a]
    decreases |a|
  {
    if |a| > 0 {
      SplitNoSeparator(a[1..], sep);
      assert [a[0]] + a[1..] == a;
    }
  }

  /** A split has a second part exactly when the separator occurs. */
  lemma {:induction false} SplitFindsSeparator(s: string, sep: char)
    ensures |Split(s, sep)| >= 2 <==> sep in s
    decreases |s|
  {
    if |s| > 0 {
      SplitFindsSeparator(s[1..], sep);
      assert s == [s[0]] + s[1..];
    }
  }

  /** Splitting a join of separator-free parts gives the parts back. */
  lemma {:induction false} SplitJoin(parts: seq<string>, sep: char)
    requires |parts| >= 1
    requires forall k :: 0 <= k < |parts| ==> sep !in parts[k]
    ensures Split(Join(parts, [sep]), sep) == parts
    decreases |parts|
  {
    if |parts| == 1 {
      SplitNoSeparator(parts[0], sep);
    } else {
      SplitJoin(parts[1..], sep);
      SplitAtFirst(parts[0], sep, Join(parts[1..], [sep]));
      assert [parts[0]] + parts[1..] == parts;
    }
  }

  // ---------------------------------------------------------------------------------------
  // strings.Replace with a one-character target string
  // ---------------------------------------------------------------------------------------

  /**
    strings.Replace(s, [target], repl, n) for `repl != [target]`: the first `n` occurrences of `target`
    are replaced; a negative `n` replaces every occurrence.
   */
  function ReplaceRune(s: string, target: char, repl: string, n: int): string
    decreases |s|
  {
    if |s| == 0 then ""
    else if s[0] == target && n != 0 then repl + ReplaceRune(s[1..], target, repl, n - 1)
    else [s[0]] + ReplaceRune(s[1..], target, repl, n)
  }

  /** Text free of `target` passes through a replacement unchanged, and so does any text when `n` is zero. */
  lemma {:induction false} ReplaceRuneSkips(a: string, b: string, target: char, repl: string, n: int)
    requires target !in a || n == 0
    ensures ReplaceRune(a + b, target, repl, n) == a + ReplaceRune(b, target, repl, n)
    decreases |a|
  {
    if |a| > 0 {
      assert (a + b)[0] == a[0];
      assert (a + b)[1..] == a[1..] + b;
      ReplaceRuneSkips(a[1..], b, target, repl, n);
      assert [a[0]] + (a[1..] + ReplaceRune(b, target, repl, n)) == a + ReplaceRune(b, target, repl, n);
    } else {
      assert a + b == b;
    }
  }

  /** With `n == 0` nothing is replaced. */
  lemma {:induction false} ReplaceRuneNone(s: string, target: char, repl: string)
    ensures ReplaceRune(s, target, repl, 0) == s
  {
    ReplaceRuneSkips(s, "", target, repl, 0);
    assert s + "" == s;
  }

  // ---------------------------------------------------------------------------------------
  // Decimal digits, strconv.Atoi and its inverse
  // ---------------------------------------------------------------------------------------

  predicate IsDigit(c: char) {
    '0' <= c <= '9'
  }

  /** Every character is an ASCII decimal digit (the regular expression `\d*`). */
  predicate AllDigits(s: string) {
    forall i :: 0 <= i < |s| ==> IsDigit(s[i])
  }

  /** The regular expression `^\d+$` of Go's regexp package: one or more ASCII digits. */
  predicate IsDigitString(s: string) {
    |s| > 0 && AllDigits(s)
  }

  /** The value of a string of decimal digits, most significant first. */
  function DigitsValue(s: string): nat
    requires AllDigits(s)
    decreases |s|
  {
    if |s| == 0 then 0
    else DigitsValue(s[..|s| - 1]) * 10 + (s[|s| - 1] as int - '0' as int)
  }

  const MinInt64: int := -0x8000_0000_0000_0000
  const MaxInt64: int := 0x7fff_ffff_ffff_ffff

  /** A Go `int` on a 64-bit platform. */
  predicate InInt64(n: int) {
    MinInt64 <= n <= MaxInt64
  }

  /** The *strconv.NumError returned by a failed Atoi, carrying the rejected text. */
  datatype AtoiError = AtoiError(input: string)

  /** The text after an optional leading '+' or '-'. */
  function Unsigned(s: string): string {
    if |s| > 0 && (s[0] == '-' || s[0] == '+') then s[1..] else s
  }

  /** The value of a sign-prefixed digit string. */
  function SignedValue(s: string): int
    requires IsDigitString(Unsigned(s))
  {
    if |s| > 0 && s[0] == '-' then -(DigitsValue(s[1..]) as int) else DigitsValue(Unsigned(s))
  }

  /**
    strconv.Atoi on a 64-bit platform: an optional sign followed by at least one ASCII digit,
    whose value must fit in an int64; anything else (the empty string, a bare sign, spaces,
    underscores, an overflowing value) is an error.
   */
  function Atoi(s: string): (r: Result<int, AtoiError>)
    ensures r.Success? <==> IsDigitString(Unsigned(s)) && InInt64(SignedValue(s))
    ensures r.Success? ==> r.value == SignedValue(s) && InInt64(r.value)
    ensures r.Failure? ==> r.error.input == s
  {
    var digits := Unsigned(s);
    if !IsDigitString(digits) then Failure(AtoiError(s))
    else
      var n: int := if s[0] == '-' then -(DigitsValue(digits) as int) else DigitsValue(digits);
      if InInt64(n) then Success(n) else Failure(AtoiError(s))
  }

  /** The decimal digits of a natural number, without leading zeros. */
  function NatDigits(n: nat): (s: string)
    ensures IsDigitString(s)
    ensures DigitsValue(s) == n
    decreases n
  {
    if n < 10 then [('0' as int + n) as char]
    else
      var prefix := NatDigits(n / 10);
      var s := prefix + [('0' as int + n % 10) as char];
      assert s[..|s| - 1] == prefix;
      s
  }

  /** strconv.Itoa: the canonical decimal text of an integer. */
  function Itoa(n: int): string {
    if n < 0 then "-" + NatDigits(-n) else NatDigits(n)
  }

  /** Atoi reads back the canonical text of every int64. */
  lemma AtoiItoa(n: int)
    requires InInt64(n)
    ensures Atoi(Itoa(n)) == Success(n)
  {
    var s := Itoa(n);
    if n < 0 {
      assert s[1..] == NatDigits(-n);
    }
  }

  // ---------------------------------------------------------------------------------------
  // Go's `<` on strings
  // ---------------------------------------------------------------------------------------

  /** Go's `a < b` on strings: lexicographic, a proper prefix sorting first. */
  predicate Less(a: string, b: string)
    decreases |a|
  {
    if |a| == 0 then |b| > 0
    else if |b| == 0 then false
    else if a[0] != b[0] then a[0] < b[0]
    else Less(a[1..], b[1..])
  }

  lemma {:induction false} LessIrreflexive(a: string)
    ensures !Less(a, a)
    decreases |a|
  {
    if |a| > 0 {
      LessIrreflexive(a[1..]);
    }
  }

  lemma {:induction false} LessTransitive(a: string, b: string, c: string)
    requires Less(a, b) && Less(b, c)
    ensures Less(a, c)
    decreases |a|
  {
    if |a| > 0 && a[0] == b[0] && b[0] == c[0] {
      LessTransitive(a[1..], b[1..], c[1..]);
    }
  }

  /** Any two different strings are ordered one way or the other. */
  lemma {:induction false} LessTotal(a: string, b: string)
    requires a != b
    ensures Less(a, b) || Less(b, a)
    decreases |a|
  {
    if |a| > 0 && |b| > 0 && a[0] == b[0] {
      assert a == [a[0]] + a[1..] && b == [b[0]] + b[1..];
      LessTotal(a[1..], b[1..]);
    }
  }

  lemma {:induction false} LessAsymmetric(a: string, b: string)
    requires Less(a, b)
    ensures !Less(b, a)
    decreases |a|
  {
    if |a| > 0 && |b| > 0 && a[0] == b[0] {
      LessAsymmetric(a[1..], b[1..]);
    }
  }
}
