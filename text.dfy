/**
  The string operations `process_sat_version` relies on: Python's
  `str.split(sep)` with a one-character separator, `sep.join(parts)`, and
  `int()` of a string of decimal digits.
 */
module Text {

  /** `s.split(sep)`: the pieces between separators, always at least one (`"".split(".") == [""]`). */
  function Split(s: string, sep: char): (fields: seq<string>)
    ensures |fields| >= 1
    ensures forall i :: 0 <= i < |fields| ==> sep !in fields[i]
  {
    if s == [] then [[]]
    else
      var rest := Split(s[1..], sep);
      if s[0] == sep then [[]] + rest
      else [[s[0]] + rest[0]] + rest[1..]
  }

  /**
    `sep.join(fields)`: it begins with the first piece, and a separator
    follows the first piece when there are more.
   */
  function Join(fields: seq<string>, sep: char): (s: string)
    ensures |fields| > 0 ==> fields[0] <= s
    ensures |fields| > 1 ==> |fields[0]| < |s| && s[|fields[0]|] == sep
  {
    if |fields| == 0 then []
    else if |fields| == 1 then fields[0]
    else fields[0] + [sep] + Join(fields[1..], sep)
  }

  /**
    The last piece of a split is a tail of the string: the whole string when
    it is the only piece, and otherwise preceded by a separator.
   */
  lemma {:induction false} LastPieceIsTail(s: string, sep: char)
    ensures var fields := Split(s, sep);
      var last := fields[|fields| - 1];
      && |last| <= |s| && s[|s| - |last|..] == last
      && (|fields| == 1 ==> last == s)
      && (|fields| > 1 ==> |last| < |s| && s[|s| - |last| - 1] == sep)
  {
    if s != [] {
      var t := s[1..];
      LastPieceIsTail(t, sep);
      var rest := Split(t, sep);
      var last := rest[|rest| - 1];
      assert t[|t| - |last|..] == s[|s| - |last|..];
      var fields := Split(s, sep);
      if s[0] == sep {
        assert fields == [[]] + rest;
        if |last| < |t| {
          assert t[|t| - |last| - 1] == s[|s| - |last| - 1];
        }
      } else if |rest| == 1 {
        assert fields == [[s[0]] + rest[0]];
        assert [s[0]] + t == s;
      } else {
        assert fields == [[s[0]] + rest[0]] + rest[1..];
        assert fields[|fields| - 1] == last;
        assert t[|t| - |last| - 1] == s[|s| - |last| - 1];
      }
    }
  }

  /**
    `s.split(sep)[-1]`: the text after the last separator, which holds no
    separator; the whole string when it has none.
   */
  function LastField(s: string, sep: char): (f: string)
    ensures sep !in f
    ensures |f| <= |s| && s[|s| - |f|..] == f
    ensures |f| < |s| ==> s[|s| - |f| - 1] == sep
  {
    LastPieceIsTail(s, sep);
    var fields := Split(s, sep);
    fields[|fields| - 1]
  }

  predicate IsDigits(s: string) {
    |s| > 0 && forall i :: 0 <= i < |s| ==> '0' <= s[i] <= '9'
  }

  /**
    `int(s)` when `IsDigits(s)`; `int` raises on any other string, so callers
    rule those out and the value there is immaterial.
   */
  function DecimalValue(s: string): (v: int)
    ensures IsDigits(s) ==> 0 <= v < Pow10(|s|)
  {
    if s == [] then 0
    else
      var prefix := s[..|s| - 1];
      assert IsDigits(s) && |prefix| > 0 ==> IsDigits(prefix);
      10 * DecimalValue(prefix) + Digit(s[|s| - 1])
  }

  /** The value of one decimal digit character. */
  function Digit(c: char): int {
    (c as int) - ('0' as int)
  }

  function Pow10(n: nat): nat {
    if n == 0 then 1 else 10 * Pow10(n - 1)
  }

  /**
    The number a digit string spells, read from the left: each digit weighted
    by ten to the power of the digits after it.
   */
  function PositionalValue(s: string): int {
    if s == [] then 0 else Digit(s[0]) * Pow10(|s| - 1) + PositionalValue(s[1..])
  }

  /** Appending a digit on the right multiplies the positional value by ten and adds it. */
  lemma {:induction false} PositionalValueAppend(s: string, c: char)
    ensures PositionalValue(s + [c]) == 10 * PositionalValue(s) + Digit(c)
  {
    if s == [] {
      assert [c][1..] == [];
    } else {
      PositionalValueAppend(s[1..], c);
      assert (s + [c])[1..] == s[1..] + [c];
      assert Pow10(|s|) == 10 * Pow10(|s| - 1);
    }
  }

  /** `DecimalValue`, read from the right, is the positional value of the digits. */
  lemma {:induction false} DecimalValueIsPositional(s: string)
    ensures DecimalValue(s) == PositionalValue(s)
  {
    if s != [] {
      var prefix := s[..|s| - 1];
      DecimalValueIsPositional(prefix);
      PositionalValueAppend(prefix, s[|s| - 1]);
      assert prefix + [s[|s| - 1]] == s;
    }
  }

  /** A two-digit string is worth ten times its first digit plus its second. */
  lemma TwoDigitValue(a: char, b: char)
    ensures DecimalValue([a, b]) == 10 * Digit(a) + Digit(b)
  {
    assert [a, b][..1] == [a] && [a][..0] == [];
    assert DecimalValue([a]) == Digit(a);
  }

  /** Joining the pieces of a split gives back the string. */
  lemma {:induction false} JoinSplit(s: string, sep: char)
    ensures Join(Split(s, sep), sep) == s
  {
    if s != [] {
      var rest := Split(s[1..], sep);
      JoinSplit(s[1..], sep);
      if s[0] == sep {
        assert Split(s, sep) == [[]] + rest;
      } else {
        var fields := Split(s, sep);
        assert fields == [[s[0]] + rest[0]] + rest[1..];
        if |rest| == 1 {
          assert Join(rest, sep) == rest[0];
        } else {
          assert fields[1..] == rest[1..];
          assert Join(rest, sep) == rest[0] + [sep] + Join(rest[1..], sep);
        }
      }
    }
  }

  /** Splitting a join of separator-free pieces gives back the pieces. */
  lemma {:induction false} SplitJoin(fields: seq<string>, sep: char)
    requires |fields| >= 1
    requires forall i :: 0 <= i < |fields| ==> sep !in fields[i]
    ensures Split(Join(fields, sep), sep) == fields
    decreases |fields|, |fields[0]|
  {
    var f := fields[0];
    if f == [] {
      if |fields| > 1 {
        SplitJoin(fields[1..], sep);
        var s := Join(fields, sep);
        assert s == [sep] + Join(fields[1..], sep);
        assert s[1..] == Join(fields[1..], sep);
        assert Split(s, sep) == [[]] + fields[1..];
      }
    } else {
      var shorter := [f[1..]] + fields[1..];
      assert sep !in shorter[0];
      SplitJoin(shorter, sep);
      var s := Join(fields, sep);
      if |fields| == 1 {
        assert s == f && s[1..] == Join(shorter, sep);
      } else {
        assert shorter[1..] == fields[1..];
        assert s == f + [sep] + Join(fields[1..], sep);
        assert s[1..] == Join(shorter, sep);
      }
      assert s[0] == f[0] && s[0] != sep;
      assert [f[0]] + f[1..] == f;
    }
  }

  /** A join splits at its k-th separator into the join of the first k pieces and of the rest. */
  lemma {:induction false} JoinAppend(fields: seq<string>, sep: char, k: nat)
    requires 1 <= k < |fields|
    ensures Join(fields, sep) == Join(fields[..k], sep) + [sep] + Join(fields[k..], sep)
  {
    if k > 1 {
      JoinAppend(fields[1..], sep, k - 1);
      assert fields[1..][..k - 1] == fields[..k][1..];
      assert fields[1..][k - 1..] == fields[k..];
    }
  }
}
