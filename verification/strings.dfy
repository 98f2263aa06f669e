/** The small part of Python's `str` that the sender and receiver rely on:
    `startswith`, the `in` substring test, `split` on a one-character
    separator, the slice `s[-n:]` and `str()` of an integer. Strings are
    sequences of characters; no encoding is involved. */
module Strings {

  /** Python's `s.startswith(prefix)`. */
  predicate StartsWith(s: string, prefix: string)
  {
    |prefix| <= |s| && s[..|prefix|] == prefix
  }

  /** `sub` occurs in `s` starting at position `i`. */
  ghost predicate OccursAt(s: string, sub: string, i: int)
  {
    0 <= i && i + |sub| <= |s| && s[i..i + |sub|] == sub
  }

  /** Python's `sub in s`, computed by trying every start position in turn. */
  predicate Contains(s: string, sub: string)
    decreases |s|
  {
    StartsWith(s, sub) || (|s| > 0 && Contains(s[1..], sub))
  }

  /** The scan agrees with the positional definition of a substring. */
  lemma {:induction false} ContainsIffOccurs(s: string, sub: string)
    ensures Contains(s, sub) <==> exists i :: OccursAt(s, sub, i)
    decreases |s|
  {
    if StartsWith(s, sub) {
      assert OccursAt(s, sub, 0);
    } else {
      assert !OccursAt(s, sub, 0);
      if |s| > 0 {
        ContainsIffOccurs(s[1..], sub);
        if Contains(s[1..], sub) {
          var j :| OccursAt(s[1..], sub, j);
          assert s[1..][j..j + |sub|] == s[j + 1..j + 1 + |sub|];
          assert OccursAt(s, sub, j + 1);
        }
        if exists i :: OccursAt(s, sub, i) {
          var i :| OccursAt(s, sub, i);
          assert s[1..][i - 1..i - 1 + |sub|] == s[i..i + |sub|];
          assert OccursAt(s[1..], sub, i - 1);
        }
      }
    }
  }

  /** `s` holds no occurrence of the separator `sep`. */
  predicate Unseparated(s: string, sep: char)
  {
    sep !in s
  }

  /** Python's `s.split(sep)` for a one-character separator: the pieces
      between separators, always at least one (`"".split(":") == [""]`). */
  function Split(s: string, sep: char): (fields: seq<string>)
    ensures |fields| >= 1
    ensures forall k :: 0 <= k < |fields| ==> Unseparated(fields[k], sep)
  {
    if |s| == 0 then [""]
    else
      var rest := Split(s[1..], sep);
      if s[0] == sep then [""] + rest
      else [[s[0]] + rest[0]] + rest[1..]
  }

  /** Python's `sep.join(fields)`. */
  function Join(fields: seq<string>, sep: char): string
  {
    if |fields| == 0 then ""
    else if |fields| == 1 then fields[0]
    else fields[0] + [sep] + Join(fields[1..], sep)
  }

  /** Joining the pieces of a split gives back the original text. */
  lemma {:induction false} JoinSplit(s: string, sep: char)
    ensures Join(Split(s, sep), sep) == s
    decreases |s|
  {
    var fields := Split(s, sep);
    var rest := SplitHead(s, sep);
    if rest != "" {
      var others := rest[1..];
      JoinSplit(others, sep);
      assert Join(fields, sep) == fields[0] + [sep] + Join(fields[1..], sep);
      assert rest == [sep] + others;
    }
  }

  /** The first field is a prefix of the text; after it comes either
      nothing (the only field) or a separator and the text of the others. */
  lemma {:induction false} SplitHead(s: string, sep: char) returns (rest: string)
    ensures s == Split(s, sep)[0] + rest
    ensures rest == "" <==> |Split(s, sep)| == 1
    ensures rest != "" ==> rest[0] == sep && Split(rest[1..], sep) == Split(s, sep)[1..]
    decreases |s|
  {
    if |s| == 0 {
      rest := "";
    } else if s[0] == sep {
      rest := s;
      assert Split(s, sep) == [""] + Split(s[1..], sep);
    } else {
      var r := Split(s[1..], sep);
      rest := SplitHead(s[1..], sep);
      assert s == [s[0]] + s[1..];
      assert Split(s, sep) == [[s[0]] + r[0]] + r[1..];
    }
  }

  /** Text of two or more fields is the first field, a separator, the
      second field, then nothing or a separator-led remainder. */
  lemma SplitFirstTwo(s: string, sep: char) returns (rest: string)
    requires |Split(s, sep)| >= 2
    ensures s == Split(s, sep)[0] + [sep] + Split(s, sep)[1] + rest
    ensures rest == "" || rest[0] == sep
  {
    var first := SplitHead(s, sep);
    var second := first[1..];
    rest := SplitHead(second, sep);
    assert first == [sep] + second;
  }

  /** Splitting text whose head `a` holds no separator: `a` fuses with the
      first piece of the rest, the other pieces are untouched. */
  lemma {:induction false} SplitFreePrefix(a: string, t: string, sep: char)
    requires Unseparated(a, sep)
    ensures Split(a + t, sep) == [a + Split(t, sep)[0]] + Split(t, sep)[1..]
    decreases |a|
  {
    if |a| > 0 {
      SplitFreePrefix(a[1..], t, sep);
      assert (a + t)[1..] == a[1..] + t;
      assert [a[0]] + (a[1..] + Split(t, sep)[0]) == a + Split(t, sep)[0];
    } else {
      var f := Split(t, sep);
      assert a + t == t;
      assert a + f[0] == f[0];
      assert [f[0]] + f[1..] == f;
    }
  }

  /** A separator-free field followed by a separator is split off whole. */
  lemma SplitField(a: string, t: string, sep: char)
    requires Unseparated(a, sep)
    ensures Split(a + [sep] + t, sep) == [a] + Split(t, sep)
  {
    SplitFreePrefix(a, [sep] + t, sep);
    assert a + [sep] + t == a + ([sep] + t);
    assert ([sep] + t)[1..] == t;
    assert Split([sep] + t, sep) == [""] + Split(t, sep);
    assert a + "" == a;
  }

  /** Splitting joined separator-free fields gives the fields back. */
  lemma {:induction false} SplitJoin(fields: seq<string>, sep: char)
    requires |fields| >= 1
    requires forall k :: 0 <= k < |fields| ==> Unseparated(fields[k], sep)
    ensures Split(Join(fields, sep), sep) == fields
    decreases |fields|
  {
    if |fields| == 1 {
      SplitFreePrefix(fields[0], "", sep);
      assert fields[0] + "" == fields[0];
    } else {
      SplitJoin(fields[1..], sep);
      SplitField(fields[0], Join(fields[1..], sep), sep);
      assert [fields[0]] + fields[1..] == fields;
    }
  }

  /** Python's `s[-n:]` for `n > 0`: the last `n` characters, or all of `s`
      when it is shorter. */
  function Tail(s: string, n: nat): (t: string)
    requires n > 0
    ensures |t| == if |s| <= n then |s| else n
    ensures s == s[..|s| - |t|] + t
  {
    if |s| <= n then s else s[|s| - n..]
  }

  predicate IsDigit(c: char)
  {
    '0' <= c <= '9'
  }

  predicate AllDigits(s: string)
  {
    forall k :: 0 <= k < |s| ==> IsDigit(s[k])
  }

  function DigitValue(c: char): (d: nat)
    requires IsDigit(c)
    ensures d < 10
  {
    (c as int) - ('0' as int)
  }

  function DigitChar(d: nat): (c: char)
    requires d < 10
    ensures IsDigit(c) && DigitValue(c) == d
  {
    (('0' as int) + d) as char
  }

  /** Decimal rendering of a natural number, as Python's `str()` prints it:
      digits only, one digit exactly for 0..9, no leading zero. */
  function NatToString(n: nat): (s: string)
    ensures |s| >= 1 && AllDigits(s)
    ensures |s| == 1 <==> n < 10
    ensures s[0] != '0' || n == 0
    decreases n
  {
    if n < 10 then [DigitChar(n)]
    else NatToString(n / 10) + [DigitChar(n % 10)]
  }

  /** Reads a non-empty run of decimal digits. */
  function ParseNat(s: string): nat
    requires |s| >= 1 && AllDigits(s)
    decreases |s|
  {
    if |s| == 1 then DigitValue(s[0])
    else 10 * ParseNat(s[..|s| - 1]) + DigitValue(s[|s| - 1])
  }

  /** Reading back a rendered number gives the number. */
  lemma {:induction false} ParseNatToString(n: nat)
    ensures ParseNat(NatToString(n)) == n
    decreases n
  {
    if n >= 10 {
      var s := NatToString(n);
      ParseNatToString(n / 10);
      assert s[..|s| - 1] == NatToString(n / 10);
    }
  }

  /** Python's `str(i)` for an integer: a minus sign exactly for negative
      numbers, then the decimal digits of the magnitude, with no leading
      zero. */
  function IntToString(i: int): (s: string)
    ensures |s| >= 1
    ensures s[0] == '-' <==> i < 0
    ensures i < 0 ==> |s| >= 2 && AllDigits(s[1..])
    ensures i >= 0 ==> AllDigits(s)
    ensures var digits := if i < 0 then s[1..] else s; digits[0] != '0' || i == 0
  {
    if i < 0 then
      var digits := NatToString(-i);
      assert ("-" + digits)[1..] == digits;
      "-" + digits
    else NatToString(i)
  }

  /** Reads an optional minus sign followed by decimal digits. */
  function ParseInt(s: string): int
    requires |s| >= 1
    requires if s[0] == '-' then |s| >= 2 && AllDigits(s[1..]) else AllDigits(s)
  {
    var m: int := if s[0] == '-' then ParseNat(s[1..]) else ParseNat(s);
    if s[0] == '-' then -m else m
  }

  /** `str()` of an integer loses nothing: it can be read back. */
  lemma IntToStringRoundTrip(i: int)
    ensures ParseInt(IntToString(i)) == i
  {
    if i < 0 {
      ParseNatToString(-i);
      assert IntToString(i)[1..] == NatToString(-i);
    } else {
      ParseNatToString(i);
    }
  }

  /** A rendered integer never looks like a command-line option: after a
      possible minus sign come digits, never a letter. */
  lemma IntToStringNotOption(i: int, opt: string)
    requires |opt| >= 2 && opt[0] == '-' && !IsDigit(opt[1])
    ensures IntToString(i) != opt
  {
  }
}
